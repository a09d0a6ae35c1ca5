/**
 * The authentication modes of a whole scan result: the union of what its elements announce, whatever their
 * order; and what an RSN or WPA element announces, whatever its cipher and suite counts.
 */
module WcmModes {
  import opened Bytes
  import opened Wcm

  // ---- The walk over the elements ----

  function AuthMode(ie: seq<byte>): bv16 {
    if |ie| <= 2 then 0
    else
      var n := 2 + ie[1] as int;
      Or(ElementMask(Front(ie)), if n < |ie| then AuthMode(ie[n..]) else 0)
  }

  method IeAuthmode(ie: seq<byte>) returns (authmask: bv16)
    ensures authmask == AuthMode(ie)
  {
    hide AuthMode, Or, ElementMask;
    var pos := 0;
    authmask := 0;
    assert ie[0..] == ie;
    OrLaws(AuthMode(ie), 0, 0);
    while pos < |ie| - 2
      invariant 0 <= pos
      invariant AuthMode(ie) == Or(authmask, if pos <= |ie| then AuthMode(ie[pos..]) else 0)
      decreases |ie| - pos
    {
      AuthModeUnfolds(ie, pos);
      var tag, len := ie[pos], ie[pos + 1] as int;
      ghost var own, next := ElementMask(Front(ie[pos..])), pos + len + 2;
      OrLaws(authmask, own, if next <= |ie| then AuthMode(ie[next..]) else 0);
      OrLaws(authmask, 0, 0);
      if tag == TAG_WPA2 || tag == TAG_WPA1 {
        authmask := IeAuthmodeDecode(ie[pos..], authmask);
      } else {
        OtherTags(ie[pos..]);
      }
      pos := pos + len + 2;
    }
    AuthModeUnfolds(ie, pos);
    OrLaws(authmask, 0, 0);
  }

  lemma AuthModeUnfolds(ie: seq<byte>, pos: nat)
    ensures pos + 2 < |ie| ==>
              var next := pos + 2 + ie[pos + 1] as int;
              AuthMode(ie[pos..]) ==
              Or(ElementMask(Front(ie[pos..])), if next <= |ie| then AuthMode(ie[next..]) else 0)
    ensures pos <= |ie| <= pos + 2 ==> AuthMode(ie[pos..]) == 0
  {
    hide Or, ElementMask, Front;
    if pos + 2 < |ie| {
      var n := 2 + ie[pos + 1] as int;
      assert n < |ie[pos..]| ==> ie[pos..][n..] == ie[pos + n..];
      assert pos + n == |ie| ==> ie[pos + n..] == [];
    }
  }

  lemma OtherTags(buf: seq<byte>)
    requires |buf| > 2 && buf[0] != TAG_WPA2 && buf[0] != TAG_WPA1
    ensures ElementMask(Front(buf)) == 0
  {
    hide CiphersMask;
  }

  /** The modes of a list of elements, each on its own. */
  function Union(elems: seq<Element>): bv16
    requires AllValid(elems)
  {
    if elems == [] then 0 else Or(ElementMask(elems[0].Octets()), Union(elems[1..]))
  }

  /** A well-formed list announces exactly what its elements announce. */
  lemma {:induction false} ModesAreUnion(elems: seq<Element>)
    requires AllValid(elems)
    ensures AuthMode(Serialized(elems)) == Union(elems)
  {
    if elems != [] {
      var e, rest := elems[0], Serialized(elems[1..]);
      ModesAreUnion(elems[1..]);
      var ie := e.Octets() + rest;
      assert Serialized(elems) == ie && ie[1] == |e.body|;
      hide Or, CiphersMask, Serialized;
      if |ie| == 2 {
        assert ie == e.Octets() && AuthMode(rest) == 0;
        OrLaws(0, 0, 0);
      } else {
        assert ie[2 + |e.body|..] == rest;
        assert Front(ie) == e.Octets();
        assert |e.Octets()| == |ie| ==> rest == [];
      }
    }
  }

  lemma {:induction false} UnionPicks(elems: seq<Element>, i: nat)
    requires AllValid(elems) && i < |elems|
    ensures AllValid(elems[..i] + elems[i + 1..])
    ensures Union(elems) == Or(ElementMask(elems[i].Octets()), Union(elems[..i] + elems[i + 1..]))
  {
    hide Or, ElementMask;
    if i == 0 {
      assert elems[..0] + elems[1..] == elems[1..];
    } else {
      UnionPicks(elems[1..], i - 1);
      var less := elems[1..][..i - 1] + elems[1..][i..];
      assert (elems[..i] + elems[i + 1..])[1..] == less;
      var a, b := ElementMask(elems[0].Octets()), ElementMask(elems[i].Octets());
      OrLaws(a, b, Union(less));
      OrLaws(b, a, Union(less));
    }
  }

  /** The order of the elements makes no difference. */
  lemma {:induction false} OrderDoesNotMatter(a: seq<Element>, b: seq<Element>)
    requires AllValid(a) && AllValid(b) && multiset(a) == multiset(b)
    ensures AuthMode(Serialized(a)) == AuthMode(Serialized(b))
  {
    hide AuthMode;
    ModesAreUnion(a);
    ModesAreUnion(b);
    UnionPermutes(a, b);
  }

  lemma Removed(a: seq<Element>, b: seq<Element>, i: nat)
    requires a != [] && i < |b| && a[0] == b[i] && multiset(a) == multiset(b)
    ensures multiset(a[1..]) == multiset(b[..i] + b[i + 1..])
  {
    assert a == [a[0]] + a[1..];
    assert b == b[..i] + [b[i]] + b[i + 1..];
    assert multiset(a[1..]) == multiset(a) - multiset{a[0]};
    assert multiset(b[..i] + b[i + 1..]) == multiset(b) - multiset{b[i]};
  }

  lemma {:induction false} UnionPermutes(a: seq<Element>, b: seq<Element>)
    requires AllValid(a) && AllValid(b) && multiset(a) == multiset(b)
    ensures Union(a) == Union(b)
  {
    hide Or, ElementMask;
    if a == [] {
      assert |multiset(b)| == 0;
      assert b == [];
    } else {
      var x := a[0];
      assert x in multiset(a);
      var i :| 0 <= i < |b| && b[i] == x;
      UnionPicks(b, i);
      Removed(a, b, i);
      UnionPermutes(a[1..], b[..i] + b[i + 1..]);
    }
  }

  // ---- What an RSN or WPA element announces ----

  predicate FourEach(suites: seq<seq<byte>>) {
    forall i :: 0 <= i < |suites| ==> |suites[i]| == 4
  }

  /** An element with complete cipher and suite lists, followed by anything. */
  datatype Security = Security(kind: Kind, version: seq<byte>, group: seq<byte>, ciphers: seq<seq<byte>>,
                               akms: seq<seq<byte>>, tail: seq<byte>) {
    predicate Valid() {
      && |version| == 2 && |group| == 4 && FourEach(ciphers) && FourEach(akms)
      && |ciphers| < 0x10000 && |akms| < 0x10000
    }

    function Suites(): seq<byte>
      requires Valid()
    {
      ToLE(|akms|, 2) + (Concat(akms) + tail)
    }

    function Ciphers(): seq<byte>
      requires Valid()
    {
      ToLE(|ciphers|, 2) + (Concat(ciphers) + Suites())
    }

    function Body(): seq<byte>
      requires Valid()
    {
      (if kind.Wpa1? then WPA1_OUI + [1] else []) + version + group + Ciphers()
    }

    function Tag(): byte {
      if kind.Wpa1? then TAG_WPA1 else TAG_WPA2
    }
  }

  function SuitesUnion(kind: Kind, akms: seq<seq<byte>>): bv16
    requires FourEach(akms)
  {
    if akms == [] then 0
    else Or(SuitesUnion(kind, akms[..|akms| - 1]), AkmMask(kind, akms[|akms| - 1]))
  }

  lemma {:induction false} SuiteSlices(suites: seq<seq<byte>>, i: nat)
    requires FourEach(suites)
    ensures |Concat(suites)| == 4 * |suites|
    ensures i < |suites| ==> Concat(suites)[4 * i..4 * i + 4] == suites[i]
  {
    if suites != [] {
      SuiteSlices(suites[1..], if i == 0 then 0 else i - 1);
      if 0 < i < |suites| {
        assert Concat(suites)[4 * i..4 * i + 4] == Concat(suites[1..])[4 * i - 4..4 * i];
      }
    }
  }

  lemma {:induction false} MasksOfSuites(kind: Kind, akms: seq<seq<byte>>, more: seq<byte>, n: nat)
    requires FourEach(akms) && n <= |akms|
    ensures |Concat(akms) + more| >= 4 * n
    ensures AkmMasks(kind, Concat(akms) + more, n) == SuitesUnion(kind, akms[..n])
  {
    hide Or, AkmMask, Concat;
    SuiteSlices(akms, 0);
    if n > 0 {
      MasksOfSuites(kind, akms, more, n - 1);
      SuiteSlices(akms, n - 1);
      var all := Concat(akms) + more;
      assert all[4 * n - 4..4 * n] == Concat(akms)[4 * n - 4..4 * n];
      assert akms[..n][..n - 1] == akms[..n - 1];
    }
  }

  lemma CountReadsBack(n: nat, more: seq<byte>)
    requires n < 0x10000
    ensures Count(ToLE(n, 2) + more) == n && |ToLE(n, 2)| == 2
  {
    LE2(n);
  }

  lemma ListedSuites(s: Security)
    requires s.Valid()
    ensures SuitesMask(s.kind, s.Suites()) == Or(SuitesUnion(s.kind, s.akms), CapsMask(s.kind, s.tail))
  {
    hide Or, AkmMask, CapsMask, Concat, ToLE;
    var n, b := |s.akms|, s.Suites();
    CountReadsBack(n, Concat(s.akms) + s.tail);
    SuiteSlices(s.akms, 0);
    MasksOfSuites(s.kind, s.akms, s.tail, n);
    assert s.akms[..n] == s.akms;
    assert b[2..] == Concat(s.akms) + s.tail && b[2 + 4 * n..] == s.tail;
  }

  lemma PastCiphers(s: Security)
    requires s.Valid()
    ensures CiphersMask(s.kind, s.Ciphers()) == SuitesMask(s.kind, s.Suites())
  {
    hide SuitesMask, Concat, ToLE;
    var n, b := |s.ciphers|, s.Ciphers();
    CountReadsBack(n, Concat(s.ciphers) + s.Suites());
    SuiteSlices(s.ciphers, 0);
    assert b[2 + 4 * n..] == s.Suites();
  }

  /** A complete element announces exactly its listed suites and its capabilities. */
  lemma ElementAnnounces(s: Security)
    requires s.Valid() && |s.Body()| < 256
    ensures ElementMask(Element(s.Tag(), s.Body()).Octets()) ==
            Or(SuitesUnion(s.kind, s.akms), CapsMask(s.kind, s.tail))
  {
    hide CiphersMask, SuitesMask, SuitesUnion, CapsMask, ElementMask, Security.Ciphers, Security.Suites, Security.Body, Or;
    ListedSuites(s);
    PastCiphers(s);
    PastGroup(s.kind, s.version, s.group, s.Ciphers(), |s.Body()|);
    BodyLayout(s);
  }

  lemma BodyLayout(s: Security)
    requires s.Valid() && |s.Body()| < 256
    ensures var oui := if s.kind.Wpa1? then WPA1_OUI + [1] else [];
            Element(s.Tag(), s.Body()).Octets() ==
            [s.Tag(), |s.Body()|] + oui + s.version + s.group + s.Ciphers()
  {
    hide Security.Ciphers;
    var oui := if s.kind.Wpa1? then WPA1_OUI + [1] else [];
    var h: seq<byte> := [s.Tag(), |s.Body()|];
    assert h + (oui + s.version + s.group + s.Ciphers()) == h + oui + s.version + s.group + s.Ciphers();
  }

  lemma PastGroup(kind: Kind, version: seq<byte>, group: seq<byte>, ciphers: seq<byte>, len: byte)
    requires |version| == 2 && |group| == 4
    ensures var oui := if kind.Wpa1? then WPA1_OUI + [1] else [];
            ElementMask([if kind.Wpa1? then TAG_WPA1 else TAG_WPA2, len] + oui + version + group + ciphers) ==
            CiphersMask(kind, ciphers)
  {
    hide CiphersMask;
    var oui := if kind.Wpa1? then WPA1_OUI + [1] else [];
    var e := [if kind.Wpa1? then TAG_WPA1 else TAG_WPA2, len] + oui + version + group + ciphers;
    if kind.Wpa1? {
      assert e[2..5] == WPA1_OUI && e[5] == 1;
      assert e[12..] == ciphers;
    } else {
      assert e[8..] == ciphers;
    }
  }

  predicate Has(mask: bv16, flag: bv16) {
    mask & flag != 0
  }

  predicate AkmFlag(flag: bv16) {
    flag == WPA_PERSONAL || flag == WPA2_PERSONAL || flag == WPA3_PERSONAL || flag == WPA_ENTERPRISE ||
    flag == WPA2_ENTERPRISE
  }

  lemma HasOr(a: bv16, b: bv16, flag: bv16)
    ensures Has(Or(a, b), flag) <==> Has(a, flag) || Has(b, flag)
  {
    assert (a | b) & flag == (a & flag) | (b & flag);
  }

  lemma HasAkm(kind: Kind, suite: seq<byte>, flag: bv16)
    requires |suite| == 4 && AkmFlag(flag)
    ensures Has(AkmMask(kind, suite), flag) <==> AkmMask(kind, suite) == flag
  {
    var m := AkmMask(kind, suite);
    assert m == 0 || m == 1 || m == 2 || m == 4 || m == 8 || m == 0x10;
    hide AkmMask;
  }

  /** An authentication bit is set exactly when one of the suites announces it. */
  lemma {:induction false} BitsAreExact(kind: Kind, akms: seq<seq<byte>>, flag: bv16)
    requires FourEach(akms) && AkmFlag(flag)
    ensures Has(SuitesUnion(kind, akms), flag) <==>
            exists i :: 0 <= i < |akms| && AkmMask(kind, akms[i]) == flag
  {
    hide Or, Has, AkmMask, AkmFlag;
    if akms == [] {
      HasNothing(flag);
    } else {
      var init, last := akms[..|akms| - 1], akms[|akms| - 1];
      BitsAreExact(kind, init, flag);
      HasOr(SuitesUnion(kind, init), AkmMask(kind, last), flag);
      HasAkm(kind, last, flag);
      assert forall i :: 0 <= i < |init| ==> akms[i] == init[i];
    }
  }

  lemma HasNothing(flag: bv16)
    ensures !Has(0, flag)
  {
  }

  /** Capabilities never set an authentication bit. */
  lemma CapsAreSeparate(kind: Kind, caps: seq<byte>, flag: bv16)
    requires AkmFlag(flag)
    ensures !Has(CapsMask(kind, caps), flag)
  {
    var m := CapsMask(kind, caps);
    assert m == 0 || m == 0x40 || m == 0x80 || m == 0xc0;
    hide CapsMask;
  }

  /** A complete element announces a mode exactly when one of its suites does. */
  lemma ElementBitsAreExact(s: Security, flag: bv16)
    requires s.Valid() && |s.Body()| < 256 && AkmFlag(flag)
    ensures Has(ElementMask(Element(s.Tag(), s.Body()).Octets()), flag) <==>
            exists i :: 0 <= i < |s.akms| && AkmMask(s.kind, s.akms[i]) == flag
  {
    ElementAnnounces(s);
    hide Or, Has, AkmMask, AkmFlag, ElementMask, CapsMask, Security.Body;
    HasOr(SuitesUnion(s.kind, s.akms), CapsMask(s.kind, s.tail), flag);
    BitsAreExact(s.kind, s.akms, flag);
    CapsAreSeparate(s.kind, s.tail, flag);
  }

  // ---- In octets and bits ----

  predicate Listed(suites: seq<seq<byte>>, suite: seq<byte>) {
    exists i :: 0 <= i < |suites| && suites[i] == suite
  }

  /** The bits of a listed suite. */
  lemma SuiteListed(kind: Kind, akms: seq<seq<byte>>, suite: seq<byte>, flag: bv16)
    requires FourEach(akms) && |suite| == 4 && AkmFlag(flag)
    requires forall s: seq<byte> :: |s| == 4 ==> (AkmMask(kind, s) == flag <==> s == suite)
    ensures (exists i :: 0 <= i < |akms| && AkmMask(kind, akms[i]) == flag) <==> Listed(akms, suite)
  {
    hide AkmMask, AkmFlag;
    if exists i :: 0 <= i < |akms| && AkmMask(kind, akms[i]) == flag {
      var i :| 0 <= i < |akms| && AkmMask(kind, akms[i]) == flag;
      assert akms[i] == suite;
    }
    if Listed(akms, suite) {
      var i :| 0 <= i < |akms| && akms[i] == suite;
      assert AkmMask(kind, akms[i]) == flag;
    }
  }

  /** The octets after the group cipher: counted ciphers, counted suites, and the rest. */
  function Lists(ciphers: seq<seq<byte>>, akms: seq<seq<byte>>, tail: seq<byte>): seq<byte> {
    [|ciphers| % 256, |ciphers| / 256 % 256] + Concat(ciphers) + [|akms| % 256, |akms| / 256 % 256] + Concat(akms) + tail
  }

  lemma BodyOctets(s: Security)
    requires s.Valid()
    ensures s.Body() == (if s.kind.Wpa1? then [0x00, 0x50, 0xf2, 0x01] else []) + s.version + s.group +
                        Lists(s.ciphers, s.akms, s.tail)
  {
    LE2(|s.ciphers|);
    LE2(|s.akms|);
    hide ToLE, Concat;
  }

  /** Which authentication bits a complete RSN element sets, in octets and masks. */
  lemma RsnBits(version: seq<byte>, group: seq<byte>, ciphers: seq<seq<byte>>, akms: seq<seq<byte>>, tail: seq<byte>)
    requires |version| == 2 && |group| == 4 && FourEach(ciphers) && FourEach(akms)
    requires |version + group + Lists(ciphers, akms, tail)| < 256
    ensures var body := version + group + Lists(ciphers, akms, tail);
            var m := ElementMask([0x30, |body|] + body);
            && (m & 0x0010 != 0 <==> Listed(akms, [0x00, 0x0f, 0xac, 1]))
            && (m & 0x0002 != 0 <==> Listed(akms, [0x00, 0x0f, 0xac, 2]))
            && (m & 0x0004 != 0 <==> Listed(akms, [0x00, 0x0f, 0xac, 8]))
            && (m & 0x0040 != 0 <==> |tail| >= 2 && tail[0] / 8 % 2 == 1)
            && (m & 0x0080 != 0 <==> |tail| >= 2 && tail[0] / 4 % 2 == 1)
            && m & 0xff29 == 0
  {
    hide Security.Body, ElementMask, AkmMask, Listed, Lists;
    var s := Security(Wpa2, version, group, ciphers, akms, tail);
    ListSizes(ciphers, akms, tail);
    BodyOctets(s);
    assert [] + version == version;
    RsnSuites(s);
    CapabilityBits(s);
  }

  /** Which authentication bits a complete WPA element sets, in octets and masks. */
  lemma WpaBits(version: seq<byte>, group: seq<byte>, ciphers: seq<seq<byte>>, akms: seq<seq<byte>>, tail: seq<byte>)
    requires |version| == 2 && |group| == 4 && FourEach(ciphers) && FourEach(akms)
    requires |version + group + Lists(ciphers, akms, tail)| < 252
    ensures var body := [0x00, 0x50, 0xf2, 0x01] + version + group + Lists(ciphers, akms, tail);
            var m := ElementMask([0xdd, |body|] + body);
            && (m & 0x0008 != 0 <==> Listed(akms, [0x00, 0x50, 0xf2, 1]))
            && (m & 0x0001 != 0 <==> Listed(akms, [0x00, 0x50, 0xf2, 2]))
            && (m & 0x0080 != 0 <==> |tail| >= 2 && tail[0] / 4 % 2 == 1)
            && m & 0xff76 == 0
  {
    hide Security.Body, ElementMask, AkmMask, Listed, Lists;
    var s := Security(Wpa1, version, group, ciphers, akms, tail);
    ListSizes(ciphers, akms, tail);
    BodyOctets(s);
    WpaSuites(s);
    CapabilityBits(s);
  }

  lemma ListSizes(ciphers: seq<seq<byte>>, akms: seq<seq<byte>>, tail: seq<byte>)
    requires FourEach(ciphers) && FourEach(akms)
    ensures |Lists(ciphers, akms, tail)| == 4 + 4 * |ciphers| + 4 * |akms| + |tail|
  {
    hide Concat;
    SuiteSlices(ciphers, 0);
    SuiteSlices(akms, 0);
  }

  lemma RsnSuites(s: Security)
    requires s.Valid() && |s.Body()| < 256 && s.kind == Wpa2
    ensures var m := ElementMask([0x30, |s.Body()|] + s.Body());
            && (m & 0x0010 != 0 <==> Listed(s.akms, [0x00, 0x0f, 0xac, 1]))
            && (m & 0x0002 != 0 <==> Listed(s.akms, [0x00, 0x0f, 0xac, 2]))
            && (m & 0x0004 != 0 <==> Listed(s.akms, [0x00, 0x0f, 0xac, 8]))
            && m & 0x0001 == 0 && m & 0x0008 == 0
  {
    hide Security.Body, ElementMask, AkmMask, Listed;
    forall t: seq<byte> | |t| == 4
      ensures AkmMask(Wpa2, t) == 0x0010 <==> t == [0x00, 0x0f, 0xac, 1]
      ensures AkmMask(Wpa2, t) == 0x0002 <==> t == [0x00, 0x0f, 0xac, 2]
      ensures AkmMask(Wpa2, t) == 0x0004 <==> t == [0x00, 0x0f, 0xac, 8]
      ensures AkmMask(Wpa2, t) != 0x0001 && AkmMask(Wpa2, t) != 0x0008
    {
      SuiteBits(t);
    }
    SuiteListed(Wpa2, s.akms, [0x00, 0x0f, 0xac, 1], 0x0010);
    SuiteListed(Wpa2, s.akms, [0x00, 0x0f, 0xac, 2], 0x0002);
    SuiteListed(Wpa2, s.akms, [0x00, 0x0f, 0xac, 8], 0x0004);
    ElementBitsAreExact(s, 0x0010);
    ElementBitsAreExact(s, 0x0002);
    ElementBitsAreExact(s, 0x0004);
    ElementBitsAreExact(s, 0x0001);
    ElementBitsAreExact(s, 0x0008);
  }

  lemma WpaSuites(s: Security)
    requires s.Valid() && |s.Body()| < 256 && s.kind == Wpa1
    ensures var m := ElementMask([0xdd, |s.Body()|] + s.Body());
            && (m & 0x0008 != 0 <==> Listed(s.akms, [0x00, 0x50, 0xf2, 1]))
            && (m & 0x0001 != 0 <==> Listed(s.akms, [0x00, 0x50, 0xf2, 2]))
            && m & 0x0002 == 0 && m & 0x0004 == 0 && m & 0x0010 == 0
  {
    hide Security.Body, ElementMask, AkmMask, Listed;
    forall t: seq<byte> | |t| == 4
      ensures AkmMask(Wpa1, t) == 0x0008 <==> t == [0x00, 0x50, 0xf2, 1]
      ensures AkmMask(Wpa1, t) == 0x0001 <==> t == [0x00, 0x50, 0xf2, 2]
      ensures AkmMask(Wpa1, t) != 0x0002 && AkmMask(Wpa1, t) != 0x0004 && AkmMask(Wpa1, t) != 0x0010
    {
      SuiteBits(t);
    }
    SuiteListed(Wpa1, s.akms, [0x00, 0x50, 0xf2, 1], 0x0008);
    SuiteListed(Wpa1, s.akms, [0x00, 0x50, 0xf2, 2], 0x0001);
    ElementBitsAreExact(s, 0x0008);
    ElementBitsAreExact(s, 0x0001);
    ElementBitsAreExact(s, 0x0002);
    ElementBitsAreExact(s, 0x0004);
    ElementBitsAreExact(s, 0x0010);
  }

  /** The two capability bits, and none besides. */
  lemma CapabilityBits(s: Security)
    requires s.Valid() && |s.Body()| < 256
    ensures var m := ElementMask(Element(s.Tag(), s.Body()).Octets());
            && (m & 0x0040 != 0 <==> s.kind.Wpa2? && |s.tail| >= 2 && s.tail[0] / 8 % 2 == 1)
            && (m & 0x0080 != 0 <==> |s.tail| >= 2 && s.tail[0] / 4 % 2 == 1)
            && m & 0xff20 == 0
  {
    ElementAnnounces(s);
    SuitesSetNoOthers(s.kind, s.akms);
    CapsBits(s.kind, s.tail);
    hide ElementMask, CapsMask, SuitesUnion, Security.Body;
    JoinedBits(SuitesUnion(s.kind, s.akms), CapsMask(s.kind, s.tail));
  }

  lemma JoinedBits(a: bv16, b: bv16)
    requires a & 0xffe0 == 0
    ensures Or(a, b) & 0x0040 == b & 0x0040 && Or(a, b) & 0x0080 == b & 0x0080 && Or(a, b) & 0xff20 == b & 0xff20
  {
  }

  lemma {:induction false} SuitesSetNoOthers(kind: Kind, akms: seq<seq<byte>>)
    requires FourEach(akms)
    ensures SuitesUnion(kind, akms) & 0xffe0 == 0
  {
    if akms != [] {
      var last := akms[|akms| - 1];
      SuitesSetNoOthers(kind, akms[..|akms| - 1]);
      SuiteBits(last);
      var m := AkmMask(kind, last);
      assert m == 0 || m == 1 || m == 2 || m == 4 || m == 8 || m == 0x10;
      hide AkmMask;
      OrBelow(SuitesUnion(kind, akms[..|akms| - 1]), m);
    }
  }

  lemma OrBelow(a: bv16, b: bv16)
    requires a & 0xffe0 == 0 && b & 0xffe0 == 0
    ensures Or(a, b) & 0xffe0 == 0
  {
  }

  lemma CapsBits(kind: Kind, caps: seq<byte>)
    ensures var m := CapsMask(kind, caps);
            && (m & 0x0040 != 0 <==> kind.Wpa2? && |caps| >= 2 && caps[0] / 8 % 2 == 1)
            && (m & 0x0080 != 0 <==> |caps| >= 2 && caps[0] / 4 % 2 == 1)
            && m & 0xff20 == 0
  {
    assert Pow2(2) == 4 && Pow2(3) == 8;
    var m := CapsMask(kind, caps);
    var a := |caps| >= 2 && kind.Wpa2? && caps[0] / 8 % 2 == 1;
    var b := |caps| >= 2 && caps[0] / 4 % 2 == 1;
    assert m == Or(if a then 0x0040 else 0, if b then 0x0080 else 0);
    hide CapsMask, Pow2;
  }

  /** Only RSN elements and those of one vendor type announce anything. */
  lemma OtherElements(e: seq<byte>)
    requires |e| >= 2
    requires e[0] != 0x30 && (e[0] != 0xdd || |e| < 6 || e[2..6] != [0x00, 0x50, 0xf2, 0x01])
    ensures ElementMask(e) == 0
  {
    hide CiphersMask;
    if |e| >= 8 {
      assert e[2..6] == e[2..5] + [e[5]];
    }
  }

  /** An element cut off anywhere before the end of its suite list announces nothing. */
  lemma CutShort(s: Security, k: nat)
    requires s.Valid() && |s.Body()| < 256 && 2 <= k < 2 + |s.Body()| - |s.tail|
    ensures ElementMask(([s.Tag(), |s.Body()|] + s.Body())[..k]) == 0
  {
    var e, n := [s.Tag(), |s.Body()|] + s.Body(), if s.kind.Wpa1? then 12 else 8;
    CutFront(s, k, e, n);
    if k >= n {
      CutCiphers(s, k - n);
    }
  }

  lemma CutFront(s: Security, k: nat, e: seq<byte>, n: nat)
    requires s.Valid() && |s.Body()| < 256 && e == [s.Tag(), |s.Body()|] + s.Body() && 2 <= k <= |e|
    requires n == if s.kind.Wpa1? then 12 else 8
    ensures |e| == n + |s.Ciphers()|
    ensures ElementMask(e[..k]) == if k < n then 0 else CiphersMask(s.kind, s.Ciphers()[..k - n])
  {
    hide CiphersMask, Security.Ciphers;
    assert e[n..] == s.Ciphers();
    if k >= n {
      Cut(e, k, n);
      if s.kind.Wpa1? {
        assert e[2..5] == WPA1_OUI && e[5] == 1;
        assert e[..k][2..5] == e[2..5];
      }
    }
  }

  lemma Cut(e: seq<byte>, k: nat, n: nat)
    requires n <= k <= |e|
    ensures e[..k][n..] == e[n..][..k - n]
  {
  }

  lemma CutCiphers(s: Security, k: nat)
    requires s.Valid() && k < |s.Ciphers()| - |s.tail|
    ensures CiphersMask(s.kind, s.Ciphers()[..k]) == 0
  {
    hide SuitesMask, Concat, ToLE, Security.Suites;
    var b, n := s.Ciphers(), |s.ciphers|;
    CountReadsBack(n, Concat(s.ciphers) + s.Suites());
    SuiteSlices(s.ciphers, 0);
    if k >= 2 {
      assert Count(b[..k]) == Count(b);
    }
    if k >= 2 + 4 * n {
      assert b[2 + 4 * n..] == s.Suites();
      Cut(b, k, 2 + 4 * n);
      CutSuites(s, k - 2 - 4 * n);
    }
  }

  lemma CutSuites(s: Security, k: nat)
    requires s.Valid() && k < |s.Suites()| - |s.tail|
    ensures SuitesMask(s.kind, s.Suites()[..k]) == 0
  {
    hide Concat, ToLE, AkmMasks, CapsMask;
    var b, n := s.Suites(), |s.akms|;
    CountReadsBack(n, Concat(s.akms) + s.tail);
    SuiteSlices(s.akms, 0);
    if k >= 2 {
      assert Count(b[..k]) == Count(b);
    }
  }
}
