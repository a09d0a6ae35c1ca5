/**
 * Packing and unpacking of host interface messages: a header of group, message and transaction numbers,
 * then the fields in the order they are declared.
 */
module HioMessage {
  import opened Bytes
  import opened Wrappers

  // ---- Declarations and values ----

  datatype Format = U8 | I8 | U16 | I16 | U32 | I32 | U64 | I64 | Text {
    function Width(): (w: nat)
      ensures w > 0
    {
      match this
      case U8 | I8 | Text => 1
      case U16 | I16 => 2
      case U32 | I32 => 4
      case U64 | I64 => 8
    }

    predicate Signed() {
      I8? || I16? || I32? || I64?
    }

    /** The values the format can carry. */
    predicate InRange(v: int) {
      if Signed() then 0 <= 2 * v + Pow256(Width()) && 2 * v < Pow256(Width()) else 0 <= v < Pow256(Width())
    }
  }

  /** `dim` is the number of elements; zero stands for as many as there are. */
  datatype Field = Field(declared: Format, dim: Option<nat>) {
    /** Variable arrays of 8-bit numbers travel as byte strings. */
    function PyFmt(): Format {
      if dim == Some(0) && (declared.U8? || declared.I8?) then Text else declared
    }

    predicate Variable() {
      dim == Some(0)
    }
  }

  datatype Value = Num(v: int) | Nums(vs: seq<int>) | ByteString(bs: seq<byte>)

  // ---- Numbers ----

  function PutInt(fmt: Format, v: int): Option<seq<byte>> {
    if fmt.Text? || !fmt.InRange(v) then None
    else Some(ToLE(if v < 0 then v + Pow256(fmt.Width()) else v, fmt.Width()))
  }

  function GetInt(fmt: Format, bs: seq<byte>): int {
    var u := FromLE(bs);
    if fmt.Signed() && 2 * u >= Pow256(fmt.Width()) then u - Pow256(fmt.Width()) else u
  }

  function PutInts(fmt: Format, vs: seq<int>): Option<seq<byte>> {
    if vs == [] then Some([])
    else
      match (PutInt(fmt, vs[0]), PutInts(fmt, vs[1..]))
      case (Some(b), Some(rest)) => Some(b + rest)
      case _ => None
  }

  function GetInts(fmt: Format, bs: seq<byte>, n: nat): (vs: seq<int>)
    ensures |vs| == n
  {
    if n == 0 then []
    else
      var w := if fmt.Width() <= |bs| then fmt.Width() else |bs|;
      [GetInt(fmt, bs[..w])] + GetInts(fmt, bs[w..], n - 1)
  }

  lemma IntRoundTrip(fmt: Format, v: int)
    requires PutInt(fmt, v).Some?
    ensures |PutInt(fmt, v).value| == fmt.Width()
    ensures GetInt(fmt, PutInt(fmt, v).value) == v
  {
    FromToLE(if v < 0 then v + Pow256(fmt.Width()) else v, fmt.Width());
  }

  lemma {:induction false} IntsRoundTrip(fmt: Format, vs: seq<int>)
    requires PutInts(fmt, vs).Some?
    ensures |PutInts(fmt, vs).value| == |vs| * fmt.Width()
    ensures GetInts(fmt, PutInts(fmt, vs).value, |vs|) == vs
  {
    if vs != [] {
      IntRoundTrip(fmt, vs[0]);
      IntsRoundTrip(fmt, vs[1..]);
      hide PutInt, GetInt;
      var b, rest := PutInt(fmt, vs[0]).value, PutInts(fmt, vs[1..]).value;
      assert (b + rest)[..fmt.Width()] == b && (b + rest)[fmt.Width()..] == rest;
      assert |b + rest| == fmt.Width() + (|vs| - 1) * fmt.Width() == |vs| * fmt.Width();
    }
  }

  // ---- Fields ----

  /** Cut to `n` octets, or filled up with zeros. */
  function FitTo(bs: seq<byte>, n: nat): (r: seq<byte>)
    ensures |r| == n
    ensures |bs| == n ==> r == bs
  {
    if |bs| >= n then bs[..n] else bs + seq(n - |bs|, _ => 0)
  }

  /** How many elements the format string asks for, given an argument of length `len`. */
  function Count(f: Field, len: nat): nat {
    match f.dim
    case None => 1
    case Some(n) => if n == 0 then len else n
  }

  /** The octets of one field; None where the packing raises an error. */
  function PackField(f: Field, a: Value): Option<seq<byte>> {
    match a
    case Num(v) => if f.dim == None || f.dim == Some(1) then PutInt(f.PyFmt(), v) else None
    case Nums(vs) =>
      if f.dim == None || f.PyFmt().Text? || Count(f, |vs|) != |vs| then None else PutInts(f.PyFmt(), vs)
    case ByteString(bs) => if f.PyFmt().Text? then Some(FitTo(bs, Count(f, |bs|))) else None
  }

  /** The value of one field and the number of octets it takes. */
  function UnpackField(f: Field, rest: seq<byte>): (r: Option<(Value, nat)>)
    ensures r.Some? ==> r.value.1 <= |rest|
  {
    var fmt := f.PyFmt();
    var num := Count(f, |rest| / fmt.Width());
    var chunk := num * fmt.Width();
    if |rest| < chunk then None
    else if fmt.Text? then Some((ByteString(rest[..chunk]), chunk))
    else if f.dim == None then Some((Num(GetInt(fmt, rest[..chunk])), chunk))
    else Some((Nums(GetInts(fmt, rest[..chunk], num)), chunk))
  }

  /**
   * What a packed argument comes back as: text cut or padded to the field's size, a lone number given
   * for a one-element array as that array, everything else as it was.
   */
  function Normal(f: Field, a: Value): Value {
    match a
    case Num(v) => if f.dim == None then a else Nums([v])
    case Nums(vs) => a
    case ByteString(bs) => ByteString(FitTo(bs, Count(f, |bs|)))
  }

  function Normals(fields: seq<Field>, args: seq<Value>): (r: seq<Value>)
    requires |fields| == |args|
    ensures |r| == |args|
  {
    seq(|args|, i requires 0 <= i < |args| => Normal(fields[i], args[i]))
  }

  lemma FixedField(f: Field, a: Value, rest: seq<byte>)
    requires PackField(f, a).Some? && !f.Variable()
    ensures UnpackField(f, PackField(f, a).value + rest) == Some((Normal(f, a), |PackField(f, a).value|))
  {
    var c := PackField(f, a).value;
    assert (c + rest)[..|c|] == c;
    match a {
      case Num(v) =>
        IntRoundTrip(f.PyFmt(), v);
        assert !f.PyFmt().Text?;
        hide PutInt, GetInt;
        var w := f.PyFmt().Width();
        assert 1 * w == w;
        if f.dim == Some(1) {
          assert c[..w] == c && GetInts(f.PyFmt(), c, 1) == [v] + GetInts(f.PyFmt(), c[w..], 0) == [v];
        }
      case Nums(vs) =>
        IntsRoundTrip(f.PyFmt(), vs);
      case ByteString(bs) =>
    }
  }

  lemma VariableField(f: Field, a: Value, rest: seq<byte>)
    requires PackField(f, a).Some? && f.Variable()
    ensures var c := PackField(f, a).value;
            if |rest| < f.PyFmt().Width() then UnpackField(f, c + rest) == Some((Normal(f, a), |c|))
            else UnpackField(f, c + rest).None? || UnpackField(f, c + rest).value.0 != Normal(f, a)
  {
    var c, w := PackField(f, a).value, f.PyFmt().Width();
    if a.Nums? {
      IntsRoundTrip(f.PyFmt(), a.vs);
      Quotient(|a.vs|, |rest|, w);
      VariableTakes(f, c, rest, |a.vs|, w);
    } else {
      Quotient(|a.bs|, |rest|, 1);
      VariableTakes(f, c, rest, |a.bs|, 1);
    }
    hide PutInts, GetInts, UnpackField;
  }

  /** A variable array takes all the whole elements there are. */
  lemma VariableTakes(f: Field, c: seq<byte>, rest: seq<byte>, k: nat, w: nat)
    requires f.Variable() && w == f.PyFmt().Width() && |c| == k * w
    requires (k * w + |rest|) / w == k + |rest| / w && (|rest| < w ==> |rest| / w == 0)
    ensures |rest| < w ==>
              UnpackField(f, c + rest) ==
              Some((if f.PyFmt().Text? then ByteString(c) else Nums(GetInts(f.PyFmt(), c, k)), k * w))
    ensures UnpackField(f, c + rest).Some? ==>
              match UnpackField(f, c + rest).value.0
              case Nums(vs) => |vs| == k + |rest| / w
              case ByteString(bs) => |bs| == (k + |rest| / w) * w
              case Num(_) => false
  {
    hide GetInts;
    assert (c + rest)[..|c|] == c;
  }

  lemma Quotient(k: nat, extra: nat, w: nat)
    requires w > 0
    ensures (k * w + extra) / w == k + extra / w
    ensures extra < w ==> extra / w == 0
    ensures extra >= w ==> extra / w >= 1
  {
    var q, r := extra / w, extra % w;
    assert k * w + extra == (k + q) * w + r;
    DivModUnique(k * w + extra, k + q, r, w);
    DivModUnique(extra, q, r, w);
    if extra < w {
      DivModUnique(extra, 0, extra, w);
    } else {
      assert q == 0 ==> q * w == 0;
    }
  }

  // ---- Whole messages ----

  /** The octets of the fields, up to the first argument that does not fit, and whether all did. */
  function PackFields(fields: seq<Field>, args: seq<Value>): (seq<byte>, bool) {
    if fields == [] || args == [] then ([], true)
    else
      match PackField(fields[0], args[0])
      case None => ([], false)
      case Some(c) =>
        var (rest, ok) := PackFields(fields[1..], args[1..]);
        (c + rest, ok)
  }

  function UnpackFields(fields: seq<Field>, p: seq<byte>): Option<seq<Value>> {
    if fields == [] then Some([])
    else
      match UnpackField(fields[0], p)
      case None => None
      case Some((value, chunk)) =>
        match UnpackFields(fields[1..], p[chunk..])
        case None => None
        case Some(values) => Some([value] + values)
  }

  /** What follows each variable array is too short to be taken for another of its elements. */
  predicate TailsFit(fields: seq<Field>, args: seq<Value>)
    requires |fields| == |args|
  {
    fields == [] ||
    ((fields[0].Variable() ==> |PackFields(fields[1..], args[1..]).0| < fields[0].PyFmt().Width()) &&
     TailsFit(fields[1..], args[1..]))
  }

  /** Packing the declared number of arguments is undone by unpacking exactly when the tails fit. */
  lemma {:induction false} FieldsRoundTrip(fields: seq<Field>, args: seq<Value>)
    requires |fields| == |args| && PackFields(fields, args).1
    ensures UnpackFields(fields, PackFields(fields, args).0) == Some(Normals(fields, args)) <==>
            TailsFit(fields, args)
  {
    if fields != [] {
      var f, a := fields[0], args[0];
      var c, rest := PackField(f, a).value, PackFields(fields[1..], args[1..]).0;
      if f.Variable() {
        VariableField(f, a, rest);
      } else {
        FixedField(f, a, rest);
      }
      FieldsRoundTrip(fields[1..], args[1..]);
      hide PackField, UnpackField, Normal, Normals;
      assert (c + rest)[|c|..] == rest;
      NormalsCons(fields, args);
      UnpackCons(fields, c + rest, Normal(f, a), Normals(fields[1..], args[1..]));
      hide UnpackFields;
    }
  }

  lemma NormalsCons(fields: seq<Field>, args: seq<Value>)
    requires |fields| == |args| && fields != []
    ensures Normals(fields, args) == [Normal(fields[0], args[0])] + Normals(fields[1..], args[1..])
  {
    hide Normal;
  }

  /** Unpacking yields a value and then others exactly when the first field and the other fields do. */
  lemma UnpackCons(fields: seq<Field>, p: seq<byte>, v: Value, tail: seq<Value>)
    requires fields != []
    ensures UnpackFields(fields, p) == Some([v] + tail) <==>
            var r := UnpackField(fields[0], p);
            r.Some? && r.value.0 == v && UnpackFields(fields[1..], p[r.value.1..]) == Some(tail)
  {
    hide UnpackField;
    var r := UnpackField(fields[0], p);
    if r.Some? {
      var rest := UnpackFields(fields[1..], p[r.value.1..]);
      assert rest.Some? ==> ([r.value.0] + rest.value)[1..] == rest.value && ([v] + tail)[1..] == tail;
      assert rest.Some? ==> ([r.value.0] + rest.value)[0] == r.value.0 && ([v] + tail)[0] == v;
    }
  }

  /** In particular they do when no array but the last field is variable, whatever the values. */
  lemma {:induction false} LastVariable(fields: seq<Field>, args: seq<Value>)
    requires |fields| == |args|
    requires forall i :: 0 <= i < |fields| - 1 ==> !fields[i].Variable()
    ensures TailsFit(fields, args)
  {
    if fields != [] {
      LastVariable(fields[1..], args[1..]);
    }
  }

  /** A variable array of octets followed by a number never reads back: it takes the number's octets too. */
  lemma Swallowed(f: Field, g: Field, x: Value, v: int)
    requires f.Variable() && f.PyFmt().Width() == 1 && PackField(f, x).Some?
    requires g.dim == None && PackField(g, Num(v)).Some?
    ensures PackFields([f, g], [x, Num(v)]).1
    ensures UnpackFields([f, g], PackFields([f, g], [x, Num(v)]).0) != Some(Normals([f, g], [x, Num(v)]))
  {
    var fields, args := [f, g], [x, Num(v)];
    assert fields[1..] == [g] && args[1..] == [Num(v)] && [g][1..] == [] && [Num(v)][1..] == [];
    IntRoundTrip(g.PyFmt(), v);
    var c := PackField(g, Num(v)).value;
    hide PackField, UnpackFields;
    assert PackFields([g], [Num(v)]) == (c + [], true);
    assert !TailsFit(fields, args);
    FieldsRoundTrip(fields, args);
  }

  function After(done: seq<byte>, r: (seq<byte>, bool)): (seq<byte>, bool) {
    (done + r.0, r.1)
  }

  lemma PackEnds(fields: seq<Field>, args: seq<Value>, i: nat, done: seq<byte>)
    ensures PackFields(fields, args) == After([], PackFields(fields[0..], args[0..]))
    ensures i <= |fields| && i <= |args| && (i == |fields| || i == |args|) ==>
              After(done, PackFields(fields[i..], args[i..])) == (done, true)
  {
    assert fields[0..] == fields && args[0..] == args;
    assert [] + PackFields(fields, args).0 == PackFields(fields, args).0;
    assert done + [] == done;
  }

  lemma PackStep(fields: seq<Field>, args: seq<Value>, i: nat, done: seq<byte>)
    requires i < |fields| && i < |args|
    ensures After(done, PackFields(fields[i..], args[i..])) ==
            match PackField(fields[i], args[i])
            case None => (done, false)
            case Some(c) => After(done + c, PackFields(fields[i + 1..], args[i + 1..]))
  {
    hide PackField;
    assert fields[i..][1..] == fields[i + 1..] && args[i..][1..] == args[i + 1..];
    var c, rest := PackField(fields[i], args[i]), PackFields(fields[i + 1..], args[i + 1..]).0;
    if c.Some? {
      assert done + (c.value + rest) == done + c.value + rest;
    } else {
      assert done + [] == done;
    }
  }

  function Onto(values: seq<Value>, r: Option<seq<Value>>): Option<seq<Value>> {
    if r.None? then None else Some(values + r.value)
  }

  lemma UnpackEnds(fields: seq<Field>, p: seq<byte>, values: seq<Value>, rest: seq<byte>)
    ensures UnpackFields(fields, p) == Onto([], UnpackFields(fields[0..], p))
    ensures Onto(values, UnpackFields(fields[|fields|..], rest)) == Some(values)
  {
    assert fields[0..] == fields;
    var r := UnpackFields(fields, p);
    assert r.Some? ==> [] + r.value == r.value;
    assert values + [] == values;
  }

  lemma UnpackStep(fields: seq<Field>, i: nat, p: seq<byte>, pos: nat, values: seq<Value>)
    requires i < |fields| && pos <= |p|
    ensures Onto(values, UnpackFields(fields[i..], p[pos..])) ==
            match UnpackField(fields[i], p[pos..])
            case None => None
            case Some((value, n)) => Onto(values + [value], UnpackFields(fields[i + 1..], p[pos + n..]))
  {
    hide UnpackField;
    assert fields[i..][1..] == fields[i + 1..];
    var r := UnpackField(fields[i], p[pos..]);
    if r.Some? {
      assert p[pos..][r.value.1..] == p[pos + r.value.1..];
      var rest := UnpackFields(fields[i + 1..], p[pos + r.value.1..]);
      assert rest.Some? ==> values + ([r.value.0] + rest.value) == values + [r.value.0] + rest.value;
    }
  }

  function Header(group: byte, msgid: byte, trxid: int): Option<seq<byte>> {
    if 0 <= trxid < 0x10000 then Some([group, msgid] + ToLE(trxid, 2)) else None
  }

  // ---- In octets ----

  lemma HeaderOctets(group: byte, msgid: byte, trxid: int)
    ensures Header(group, msgid, trxid) ==
            if 0 <= trxid < 0x10000 then Some([group, msgid, trxid % 256, trxid / 256]) else None
  {
    if 0 <= trxid < 0x10000 {
      LE2(trxid);
      hide ToLE;
      assert [group, msgid] + [trxid % 256, trxid / 256] == [group, msgid, trxid % 256, trxid / 256];
    }
  }

  /** The octets of numbers of one, two and four octets, least significant first, in two's complement. */
  lemma NumberOctets(v: int)
    ensures PutInt(U8, v) == if 0 <= v < 0x100 then Some([v]) else None
    ensures PutInt(I8, v) == if -0x80 <= v < 0x80 then Some([v % 0x100]) else None
    ensures PutInt(U16, v) == if 0 <= v < 0x10000 then Some([v % 256, v / 256]) else None
    ensures PutInt(I16, v) == if -0x8000 <= v < 0x8000 then Some([v % 256, v / 256 % 256]) else None
  {
    hide PutInt;
    ByteNumbers(v);
    HalfNumbers(v);
  }

  lemma ByteNumbers(v: int)
    ensures PutInt(U8, v) == if 0 <= v < 0x100 then Some([v]) else None
    ensures PutInt(I8, v) == if -0x80 <= v < 0x80 then Some([v % 0x100]) else None
  {
    assert Pow256(1) == 256;
    hide Pow256, ToLE;
    if -0x80 <= v < 0x100 {
      OneOctet(if v < 0 then v + 256 else v);
    }
  }

  lemma HalfNumbers(v: int)
    ensures PutInt(U16, v) == if 0 <= v < 0x10000 then Some([v % 256, v / 256]) else None
    ensures PutInt(I16, v) == if -0x8000 <= v < 0x8000 then Some([v % 256, v / 256 % 256]) else None
  {
    assert Pow256(1) == 256 && Pow256(2) == 256 * Pow256(1);
    hide Pow256, ToLE;
    if -0x8000 <= v < 0x10000 {
      LE2(if v < 0 then v + 65536 else v);
    }
  }

  lemma OneOctet(v: nat)
    requires v < 256
    ensures ToLE(v, 1) == [v]
  {
    assert ToLE(v, 1) == [v % 256] + ToLE(v / 256, 0);
  }

  lemma WordOctets(v: int)
    ensures PutInt(U32, v) == if 0 <= v < 0x1_0000_0000
                              then Some([v % 256, v / 0x100 % 256, v / 0x10000 % 256, v / 0x1000000]) else None
    ensures PutInt(I32, v) == if -0x8000_0000 <= v < 0x8000_0000
                              then PutInt(U32, if v < 0 then v + 0x1_0000_0000 else v) else None
  {
    assert Pow256(4) == 256 * Pow256(3) && Pow256(3) == 256 * Pow256(2) && Pow256(2) == 65536;
    hide Pow256;
    if 0 <= v < 0x1_0000_0000 {
      LE4(v);
    }
    hide ToLE;
  }

  /** Numbers of eight octets are two of four. */
  lemma LongOctets(v: int)
    ensures PutInt(U64, v).Some? <==> 0 <= v < 0x1_0000_0000 * 0x1_0000_0000
    ensures PutInt(I64, v).Some? <==> -0x8000_0000 * 0x1_0000_0000 <= v < 0x8000_0000 * 0x1_0000_0000
    ensures PutInt(U64, v).Some? ==> PutInt(U64, v).value == ToLE(v, 8)
    ensures PutInt(I64, v).Some? ==>
              PutInt(I64, v).value == ToLE(if v < 0 then v + 0x1_0000_0000 * 0x1_0000_0000 else v, 8)
  {
    assert Pow256(4) == 256 * Pow256(3) && Pow256(3) == 256 * Pow256(2) && Pow256(2) == 65536;
    assert Pow256(8) == 256 * Pow256(7) && Pow256(7) == 256 * Pow256(6) && Pow256(6) == 256 * Pow256(5) &&
           Pow256(5) == 256 * Pow256(4);
    hide Pow256, ToLE;
  }

  /** Byte strings: as they are in a variable array of octets, cut or filled with zeros where the size is given. */
  lemma StringOctets(f: Format, bs: seq<byte>, n: nat)
    ensures PackField(Field(f, Some(0)), ByteString(bs)) == if f == U8 || f == I8 || f == Text then Some(bs) else None
    ensures n > 0 && f == Text && |bs| >= n ==> PackField(Field(f, Some(n)), ByteString(bs)) == Some(bs[..n])
    ensures n > 0 && f == Text && |bs| < n ==>
              var r := PackField(Field(f, Some(n)), ByteString(bs));
              r.Some? && |r.value| == n && r.value[..|bs|] == bs && forall i :: |bs| <= i < n ==> r.value[i] == 0
    ensures n > 0 && f != Text ==> PackField(Field(f, Some(n)), ByteString(bs)) == None
    ensures f != Text ==> PackField(Field(f, None), ByteString(bs)) == None
  {
  }

  /** Lists of numbers: one after the other, and exactly as many as the array has, unless it is variable. */
  lemma {:induction false} ListOctets(f: Format, x: int, xs: seq<int>)
    ensures PutInts(f, []) == Some([])
    ensures PutInts(f, [x] + xs) == if PutInt(f, x).None? || PutInts(f, xs).None? then None
                                    else Some(PutInt(f, x).value + PutInts(f, xs).value)
    ensures forall n :: n > 0 && f != Text ==>
              PackField(Field(f, Some(n)), Nums(xs)) == if n == |xs| then PutInts(f, xs) else None
    ensures f != Text && f != U8 && f != I8 ==> PackField(Field(f, Some(0)), Nums(xs)) == PutInts(f, xs)
    ensures PackField(Field(f, None), Nums(xs)) == None
  {
    hide PutInt;
    assert ([x] + xs)[1..] == xs;
  }

  class Message {
    const fields: seq<Field>
    var group: byte
    var msgid: byte
    var trxid: int
    var values: seq<Value>
    var payload: seq<byte>

    constructor (fields: seq<Field>, group: byte, msgid: byte)
      ensures this.fields == fields && this.group == group && this.msgid == msgid
      ensures values == [] && payload == []
    {
      this.fields, this.group, this.msgid, trxid, values, payload := fields, group, msgid, 0, [], [];
    }

    /** Packs as many arguments as there are fields for; false where packing raises an error. */
    method Pack(trxid: int, args: seq<Value>) returns (ok: bool)
      modifies this
      ensures group == old(group) && msgid == old(msgid)
      ensures ok <==> Header(group, msgid, trxid).Some? && PackFields(fields, args).1
      ensures ok ==> this.trxid == trxid &&
                     payload == Header(group, msgid, trxid).value + PackFields(fields, args).0 &&
                     values == args[..if |args| < |fields| then |args| else |fields|]
    {
      hide PackFields, PackField, After, Header;
      var hdr := Header(group, msgid, trxid);
      if hdr == None {
        return false;
      }
      payload, this.trxid, values := hdr.value, trxid, [];
      var i := 0;
      ghost var done: seq<byte> := [];
      PackEnds(fields, args, 0, []);
      while i < |fields| && i < |args|
        invariant 0 <= i <= |fields| && i <= |args|
        invariant group == old(group) && msgid == old(msgid) && this.trxid == trxid
        invariant payload == hdr.value + done && values == args[..i]
        invariant PackFields(fields, args) == After(done, PackFields(fields[i..], args[i..]))
      {
        PackStep(fields, args, i, done);
        values := values + [args[i]];
        var chunk := PackField(fields[i], args[i]);
        if chunk == None {
          return false;
        }
        payload := payload + chunk.value;
        done := done + chunk.value;
        i := i + 1;
      }
      PackEnds(fields, args, i, done);
      return true;
    }

    /** Reads header and fields back; false where the payload is too short. */
    method Unpack(p: seq<byte>) returns (ok: bool)
      modifies this
      ensures ok <==> |p| >= 4 && UnpackFields(fields, p[4..]).Some?
      ensures ok ==> group == p[0] && msgid == p[1] && trxid == FromLE(p[2..4]) && payload == p &&
                     Some(values) == UnpackFields(fields, p[4..])
    {
      hide UnpackFields, UnpackField, Onto, FromLE;
      if |p| < 4 {
        return false;
      }
      group, msgid, trxid := p[0], p[1], FromLE(p[2..4]);
      payload, values := p, [];
      var pos := 4;
      UnpackEnds(fields, p[4..], [], []);
      for i := 0 to |fields|
        invariant 4 <= pos <= |p| && payload == p && |values| == i
        invariant group == p[0] && msgid == p[1] && trxid == FromLE(p[2..4])
        invariant UnpackFields(fields, p[4..]) == Onto(values, UnpackFields(fields[i..], p[pos..]))
      {
        UnpackStep(fields, i, p, pos, values);
        var r := UnpackField(fields[i], p[pos..]);
        if r == None {
          return false;
        }
        values := values + [r.value.0];
        pos := pos + r.value.1;
      }
      UnpackEnds(fields, p[4..], values, p[pos..]);
      return true;
    }
  }

  /** A packed message is read back with its header and its (normalised) arguments when the tails fit. */
  lemma MessageRoundTrip(fields: seq<Field>, group: byte, msgid: byte, trxid: int, args: seq<Value>)
    requires |fields| == |args| && PackFields(fields, args).1 && 0 <= trxid < 0x10000
    ensures var p := Header(group, msgid, trxid).value + PackFields(fields, args).0;
            p[0] == group && p[1] == msgid && FromLE(p[2..4]) == trxid &&
            (UnpackFields(fields, p[4..]) == Some(Normals(fields, args)) <==> TailsFit(fields, args))
  {
    var hdr, body := Header(group, msgid, trxid).value, PackFields(fields, args).0;
    LE2(trxid);
    assert (hdr + body)[2..4] == ToLE(trxid, 2);
    assert (hdr + body)[4..] == body;
    FieldsRoundTrip(fields, args);
  }
}
