/**
 * GDB remote serial protocol packets: escaping, checksummed frames, and a receiver that asks again for
 * frames that arrive damaged.
 */
module GdbFrame {
  import opened Bytes
  import opened Gf2
  import opened Wrappers

  const SOF: byte := 0x24
  const EOF: byte := 0x23
  const ACK: byte := 0x2b
  const NAK: byte := 0x2d
  const INTERRUPT: byte := 0x03
  const STAR: byte := 0x2a
  const ESCAPE: byte := 0x7d

  // ---- Escaping ----

  predicate Special(b: byte) {
    b == EOF || b == SOF || b == STAR || b == ESCAPE
  }

  /** Exclusive or with 0x20. */
  function Flip(b: byte): byte {
    if b as int / 32 % 2 == 1 then b - 32 else b + 32
  }

  function Escape(b: byte): seq<byte> {
    if Special(b) then [ESCAPE, Flip(b)] else [b]
  }

  function Escaped(buf: seq<byte>): seq<byte> {
    if buf == [] then [] else Escaped(buf[..|buf| - 1]) + Escape(buf[|buf| - 1])
  }

  /** None where an escape has nothing after it. */
  function Unescaped(buf: seq<byte>): Option<seq<byte>> {
    if buf == [] then Some([])
    else if buf[0] == ESCAPE && |buf| == 1 then None
    else
      var n := if buf[0] == ESCAPE then 2 else 1;
      Prefixed(if n == 2 then Flip(buf[1]) else buf[0], Unescaped(buf[n..]))
  }

  function Prefixed(b: byte, r: Option<seq<byte>>): Option<seq<byte>> {
    if r.None? then None else Some([b] + r.value)
  }

  function Onto(done: seq<byte>, r: Option<seq<byte>>): Option<seq<byte>> {
    if r.None? then None else Some(done + r.value)
  }

  method Encode(buf: seq<byte>) returns (result: seq<byte>)
    ensures result == Escaped(buf)
  {
    result := [];
    for i := 0 to |buf|
      invariant result == Escaped(buf[..i])
    {
      assert buf[..i + 1][..i] == buf[..i];
      var x := buf[i];
      if Special(x) {
        result := result + [ESCAPE];
        assert result + [Flip(x)] == Escaped(buf[..i]) + Escape(x);
        x := Flip(x);
      }
      result := result + [x];
    }
    assert buf[..|buf|] == buf;
  }

  method Decode(buf: seq<byte>) returns (result: Option<seq<byte>>)
    ensures result == Unescaped(buf)
  {
    var done: seq<byte> := [];
    var i := 0;
    assert buf[0..] == buf;
    assert Unescaped(buf).Some? ==> [] + Unescaped(buf).value == Unescaped(buf).value;
    while i < |buf|
      invariant 0 <= i <= |buf|
      invariant Unescaped(buf) == Onto(done, Unescaped(buf[i..]))
    {
      var x := buf[i];
      i := i + 1;
      if x == ESCAPE {
        if i == |buf| {
          return None;
        }
        x := Flip(buf[i]);
        i := i + 1;
        assert buf[i - 2..][2..] == buf[i..];
      } else {
        assert buf[i - 1..][1..] == buf[i..];
      }
      OntoPrefixed(done, x, Unescaped(buf[i..]));
      done := done + [x];
    }
    assert done + [] == done;
    return Some(done);
  }

  lemma OntoPrefixed(done: seq<byte>, b: byte, r: Option<seq<byte>>)
    ensures Onto(done, Prefixed(b, r)) == Onto(done + [b], r)
  {
    if r.Some? {
      assert done + ([b] + r.value) == done + [b] + r.value;
    }
  }

  lemma UnescapeOne(b: byte, more: seq<byte>)
    ensures Unescaped(Escape(b) + more) == Prefixed(b, Unescaped(more))
  {
    var s := Escape(b) + more;
    assert s[|Escape(b)|..] == more;
  }

  /** Escaping is undone, whatever the payload. */
  lemma {:induction false} EscapeRoundTrip(buf: seq<byte>, more: seq<byte>)
    ensures Unescaped(Escaped(buf) + more) == Onto(buf, Unescaped(more))
  {
    hide Unescaped, Escape, Prefixed;
    if buf == [] {
      assert Escaped(buf) + more == more;
      assert Unescaped(more).Some? ==> [] + Unescaped(more).value == Unescaped(more).value;
    } else {
      var init, b := buf[..|buf| - 1], buf[|buf| - 1];
      EscapeRoundTrip(init, Escape(b) + more);
      UnescapeOne(b, more);
      OntoPrefixed(init, b, Unescaped(more));
      assert Escaped(buf) + more == Escaped(init) + (Escape(b) + more);
      assert init + [b] == buf;
    }
  }

  lemma DecodeInvertsEncode(buf: seq<byte>)
    ensures Unescaped(Escaped(buf)) == Some(buf)
  {
    EscapeRoundTrip(buf, []);
    assert Escaped(buf) + [] == Escaped(buf) && buf + [] == buf;
  }

  /** No frame delimiter is left in an escaped payload. */
  lemma {:induction false} EscapedIsPlain(buf: seq<byte>)
    ensures SOF !in Escaped(buf) && EOF !in Escaped(buf)
  {
    if buf != [] {
      EscapedIsPlain(buf[..|buf| - 1]);
    }
  }

  // ---- What the octets are ----

  lemma XorDoubled(x: nat, p: nat)
    ensures Xor(x, 2 * p) == x % 2 + 2 * Xor(x / 2, p)
  {
    hide Xor;
    XorStep(x, 2 * p);
    EvenAdds(x, p);
  }

  lemma EvenAdds(x: nat, p: nat)
    ensures (x + 2 * p) % 2 == x % 2 && 2 * p / 2 == p
  {
  }

  lemma XorOne(x: nat)
    ensures Xor(x, 1) == if x % 2 == 1 then x - 1 else x + 1
  {
    hide Xor;
    XorStep(x, 1);
    XorZero(x / 2);
  }

  /** Changing bit 5 is the exclusive or with 0x20. */
  lemma FlipIsXor(b: byte)
    ensures Flip(b) == XorByte(b, 0x20)
  {
    hide Xor;
    var x := b as int;
    var x1, x2, x3, x4, x5 := x / 2, x / 2 / 2, x / 2 / 2 / 2, x / 2 / 2 / 2 / 2, x / 2 / 2 / 2 / 2 / 2;
    XorDoubled(x, 16);
    XorDoubled(x1, 8);
    XorDoubled(x2, 4);
    XorDoubled(x3, 2);
    XorDoubled(x4, 1);
    XorOne(x5);
    assert x5 == x / 32;
  }

  /** The four octets that are escaped, and what becomes of each octet. */
  lemma EscapedOctet(b: byte)
    ensures Escaped([b]) == if b == 0x23 then [0x7d, 0x03] else if b == 0x24 then [0x7d, 0x04]
                            else if b == 0x2a then [0x7d, 0x0a] else if b == 0x7d then [0x7d, 0x5d] else [b]
  {
    assert [b][..0] == [] && Escaped([b]) == [] + Escape(b);
  }

  /** The octets of a payload are escaped one by one. */
  lemma {:induction false} EscapedAppend(a: seq<byte>, b: seq<byte>)
    ensures Escaped(a + b) == Escaped(a) + Escaped(b)
  {
    hide Escape;
    if b == [] {
      assert a + b == a;
    } else {
      var init, x := b[..|b| - 1], b[|b| - 1];
      EscapedAppend(a, init);
      assert (a + b)[..|a + b| - 1] == a + init;
      assert Escaped(a + b) == Escaped(a + init) + Escape(x) && Escaped(b) == Escaped(init) + Escape(x);
      hide Escaped;
      assert (Escaped(a) + Escaped(init)) + Escape(x) == Escaped(a) + (Escaped(init) + Escape(x));
    }
  }

  /** What any escaped octet is read as. */
  lemma UnescapedPair(b: byte, more: seq<byte>)
    ensures Unescaped([0x7d, b] + more) == Onto([XorByte(b, 0x20)], Unescaped(more))
    ensures b != 0x7d ==> Unescaped([b] + more) == Onto([b], Unescaped(more))
  {
    FlipIsXor(b);
    hide XorByte;
    assert ([0x7d, b] + more)[2..] == more;
    assert ([b] + more)[1..] == more;
  }

  // ---- Frames ----

  function Sum(buf: seq<byte>): nat {
    if buf == [] then 0 else Sum(buf[..|buf| - 1]) + buf[|buf| - 1] as int
  }

  /** The checksum adds up the octets. */
  lemma {:induction false} SumAdds(a: seq<byte>, b: seq<byte>, x: byte)
    ensures Sum([x]) == x && Sum(a + b) == Sum(a) + Sum(b)
  {
    assert [x][..0] == [];
    if b == [] {
      assert a + b == a;
    } else {
      SumAdds(a, b[..|b| - 1], x);
      assert (a + b)[..|a + b| - 1] == a + b[..|b| - 1];
    }
  }

  function HexDigit(v: nat): byte
    requires v < 16
  {
    if v < 10 then 0x30 + v else 0x57 + v
  }

  function DigitValue(b: byte): (v: Option<int>)
    ensures v.Some? ==> 0 <= v.value < 16
  {
    if 0x30 <= b <= 0x39 then Some(b - 0x30)
    else if 0x61 <= b <= 0x66 then Some(b - 0x57)
    else if 0x41 <= b <= 0x46 then Some(b - 0x37)
    else None
  }

  /** Digits of either case. */
  lemma DigitValues(b: byte, v: nat)
    requires v < 16
    ensures DigitValue(b) == Some(v) <==>
            b as int == "0123456789abcdef"[v] as int || b as int == "0123456789ABCDEF"[v] as int
  {
  }

  predicate Blank(b: byte) {
    b == 0x20 || 0x09 <= b <= 0x0d
  }

  /** The number two octets denote in base sixteen: digits, or one digit with a sign or a blank. */
  function Number2(a: byte, b: byte): Option<int> {
    match (DigitValue(a), DigitValue(b))
    case (Some(x), Some(y)) => Some(16 * x + y)
    case (Some(x), None) => if Blank(b) then Some(x) else None
    case (None, Some(y)) => if Blank(a) || a == 0x2b then Some(y) else if a == 0x2d then Some(-y) else None
    case (None, None) => None
  }

  /** The text of a number without the blanks around it. */
  function Stripped(s: seq<byte>): seq<byte> {
    if s != [] && (s[0] == 32 || s[0] == 9 || s[0] == 10 || s[0] == 11 || s[0] == 12 || s[0] == 13) then Stripped(s[1..])
    else if s != [] && (var b := s[|s| - 1]; b == 32 || b == 9 || b == 10 || b == 11 || b == 12 || b == 13) then
      Stripped(s[..|s| - 1])
    else s
  }

  /** The number that digits denote, the first being the most significant. */
  function DigitString(s: seq<byte>): Option<int> {
    if s == [] then None
    else if |s| == 1 then DigitValue(s[0])
    else
      match (DigitString(s[..|s| - 1]), DigitValue(s[|s| - 1]))
      case (Some(a), Some(d)) => Some(16 * a + d)
      case _ => None
  }

  /** How Python reads a number in base sixteen: blanks around it, a sign, and digits. */
  function ReadNumber(s: seq<byte>): Option<int> {
    var t := Stripped(s);
    if t != [] && t[0] == 0x2b then DigitString(t[1..])
    else if t != [] && t[0] == 0x2d then
      match DigitString(t[1..])
      case Some(v) => Some(-v)
      case None => None
    else DigitString(t)
  }

  /** On two octets that is what the receiver does. */
  lemma Number2Reads(a: byte, b: byte)
    ensures Number2(a, b) == ReadNumber([a, b])
  {
    assert [a, b][1..] == [b] && [a, b][..1] == [a] && [a][1..] == [] && [a][..0] == [] && [b][1..] == [] && [b][..0] == [];
    assert DigitValue(a).Some? ==> !Blank(a) && a != 0x2b && a != 0x2d;
    assert DigitValue(b).Some? ==> !Blank(b) && b != 0x2b && b != 0x2d;
    OneLeft(a);
    OneLeft(b);
    assert DigitString([a, b]) == match (DigitValue(a), DigitValue(b))
                                  case (Some(x), Some(y)) => Some(16 * x + y)
                                  case _ => None;
    assert Stripped([a, b]) == if Blank(a) then Stripped([b]) else if Blank(b) then Stripped([a]) else [a, b];
    hide DigitValue, Stripped;
  }

  lemma OneLeft(a: byte)
    ensures Stripped([a]) == if Blank(a) then [] else [a]
    ensures DigitString([a]) == DigitValue(a)
  {
    assert [a][1..] == [] && Stripped([]) == [];
  }

  function Checksum(body: seq<byte>): (c: seq<byte>)
    ensures |c| == 2
  {
    var s := Sum(body) % 256;
    [HexDigit(s / 16), HexDigit(s % 16)]
  }

  function Frame(payload: seq<byte>): seq<byte> {
    [SOF] + Escaped(payload) + [EOF] + Checksum(Escaped(payload))
  }

  /** The octets of a frame: the checksum is the sum modulo 256 in two lower-case digits. */
  lemma FrameOctets(payload: seq<byte>)
    ensures var body, digits := Escaped(payload), "0123456789abcdef";
            var s := Sum(body) % 256;
            Frame(payload) == [0x24] + body + [0x23] + [digits[s / 16] as byte, digits[s % 16] as byte]
  {
    hide Escaped, Sum;
    var s := Sum(Escaped(payload)) % 256;
    DigitOctets(s / 16);
    DigitOctets(s % 16);
  }

  lemma DigitOctets(v: nat)
    requires v < 16
    ensures HexDigit(v) as int == "0123456789abcdef"[v] as int
  {
  }

  lemma ChecksumReadsBack(body: seq<byte>)
    ensures Number2(Checksum(body)[0], Checksum(body)[1]) == Some(Sum(body) % 256)
  {
  }

  /** The body of a frame; None where the frame is malformed or its checksum is wrong. */
  function Unpack(pkt: seq<byte>): Option<seq<byte>> {
    var n := |pkt|;
    if n < 4 || pkt[0] != SOF || pkt[n - 3] != EOF then None
    else if Number2(pkt[n - 2], pkt[n - 1]) != Some(Sum(pkt[1..n - 3]) % 256) then None
    else Some(pkt[1..n - 3])
  }

  // ---- Receiving ----

  datatype Received = Packet(data: seq<byte>) | NoStartOfFrame

  datatype Reading = Reading(result: Received, rest: seq<byte>, sent: seq<byte>)

  function Find(b: byte, s: seq<byte>): (i: nat)
    ensures i <= |s| && (b in s <==> i < |s|) && (i < |s| ==> s[i] == b) && b !in s[..i]
  {
    if s == [] || s[0] == b then 0 else 1 + Find(b, s[1..])
  }

  function Take(s: seq<byte>, n: nat): seq<byte> {
    if |s| < n then s else s[..n]
  }

  /**
   * What the receiver makes of the octets `input`, after which the connection is closed, when `pkt` is what
   * it has collected so far: its result, what it leaves unread and what it sends.
   */
  function ReadPacket(pkt: seq<byte>, input: seq<byte>): (r: Reading)
    ensures |r.rest| <= |input|
    decreases |input|
  {
    if input == [] then Reading(Packet(pkt), [], [ACK])
    else
      var c, rest, pkt' := input[0], input[1..], pkt + [input[0]];
      if c == INTERRUPT && pkt == [] then Reading(Packet(pkt'), rest, [])
      else if c != EOF then ReadPacket(pkt', rest)
      else if SOF !in pkt' then Reading(NoStartOfFrame, rest, [])
      else
        var cs := Take(rest, 2);
        match Unpack(pkt'[Find(SOF, pkt')..] + cs)
        case Some(body) => Reading(Packet(body), rest[|cs|..], [ACK])
        case None => var r := ReadPacket([], rest[|cs|..]); r.(sent := [NAK] + r.sent)
  }

  class Connection {
    var input: seq<byte>    // what the peer has sent, up to the end of the connection
    var output: seq<byte>

    constructor (input: seq<byte>)
      ensures this.input == input && output == []
    {
      this.input, output := input, [];
    }

    method Recv(n: nat) returns (b: seq<byte>)
      modifies this`input
      ensures b == Take(old(input), n) && input == old(input)[|b|..]
    {
      b := Take(input, n);
      input := input[|b|..];
    }

    method Send(b: seq<byte>)
      modifies this`output
      ensures output == old(output) + b
    {
      output := output + b;
    }

    /** Sends a frame and waits for its acknowledgement. */
    method SendPacket(payload: seq<byte>) returns (acknowledged: bool)
      modifies this
      ensures output == old(output) + Frame(payload)
      ensures input == old(input)[|Take(old(input), 1)|..]
      ensures acknowledged <==> old(input) != [] && old(input)[0] == ACK
    {
      hide Escaped, Checksum;
      var buf := Encode(payload);
      Send([SOF] + buf + [EOF] + Checksum(buf));
      var ack := Recv(1);
      assert ack != [] ==> ack == [old(input)[0]];
      return ack == [ACK];
    }

    /** Reads the checksum of the frame in `pkt` and refuses the frame if it is damaged. */
    method FinishFrame(pkt: seq<byte>) returns (body: Option<seq<byte>>)
      requires SOF in pkt
      modifies this
      ensures var cs := Take(old(input), 2);
              body == Unpack(pkt[Find(SOF, pkt)..] + cs) && input == old(input)[|cs|..]
      ensures output == old(output) + if body == None then [NAK] else []
    {
      hide Unpack, Find;
      var cs := Recv(2);
      body := Unpack(pkt[Find(SOF, pkt)..] + cs);
      if body == None {
        Send([NAK]);
      }
    }

    /** Collects octets until a packet is complete, asking again for each damaged frame. */
    method ReadPkt() returns (result: Received)
      modifies this
      ensures var r := ReadPacket([], old(input));
              result == r.result && input == r.rest && output == old(output) + r.sent
    {
      hide Unpack, Find, ReadPacket;
      ghost var all := Sending(output, ReadPacket([], input));
      var pkt: seq<byte> := [];
      while true
        invariant all == Sending(output, ReadPacket(pkt, input))
        decreases |input|
      {
        ReadPacketUnfolds(pkt, input);
        ghost var before := input;
        var c := Recv(1);
        if c == [] {
          break;
        }
        assert c == [before[0]] && output + [] == output;
        pkt := pkt + c;
        if c == [INTERRUPT] && |pkt| == 1 {
          return Packet(pkt);
        } else if c == [EOF] {
          if SOF !in pkt {
            return NoStartOfFrame;
          }
          ghost var sent := output;
          var body := FinishFrame(pkt);
          if body == None {
            SendingMore(sent, [NAK], ReadPacket([], input));
            pkt := [];
            continue;
          }
          pkt := body.value;
          Send([ACK]);
          return Packet(pkt);
        }
      }
      Send([ACK]);
      return Packet(pkt);
    }
  }

  lemma ReadPacketUnfolds(pkt: seq<byte>, input: seq<byte>)
    ensures input == [] ==> ReadPacket(pkt, input) == Reading(Packet(pkt), [], [ACK])
    ensures input != [] ==>
      var c, rest, pkt' := input[0], input[1..], pkt + [input[0]];
      ReadPacket(pkt, input) ==
        if c == INTERRUPT && pkt == [] then Reading(Packet(pkt'), rest, [])
        else if c != EOF then ReadPacket(pkt', rest)
        else if SOF !in pkt' then Reading(NoStartOfFrame, rest, [])
        else
          var cs := Take(rest, 2);
          match Unpack(pkt'[Find(SOF, pkt')..] + cs)
          case Some(body) => Reading(Packet(body), rest[|cs|..], [ACK])
          case None => Sending([NAK], ReadPacket([], rest[|cs|..]))
  {
    hide Unpack, Find;
  }

  lemma {:induction false} ReadPacketAdvances(pkt: seq<byte>, input: seq<byte>)
    ensures input != [] ==> |ReadPacket(pkt, input).rest| < |input|
    decreases |input|
  {
    hide Unpack, Find;
    ReadPacketUnfolds(pkt, input);
    if input != [] {
      ReadPacketAdvances(pkt + [input[0]], input[1..]);
      ReadPacketUnfolds(pkt + [input[0]], []);
    }
    hide ReadPacket;
  }

  /** An interrupt by itself is a packet; a frame end without a start is an error. */
  lemma ShortPackets(rest: seq<byte>)
    ensures ReadPacket([], [0x03] + rest) == Reading(Packet([0x03]), rest, [])
    ensures ReadPacket([], [0x23] + rest) == Reading(NoStartOfFrame, rest, [])
    ensures ReadPacket([], []) == Reading(Packet([]), [], [0x2b])
  {
    hide Unpack, Find, ReadPacket;
    ReadPacketUnfolds([], [0x03] + rest);
    ReadPacketUnfolds([], [0x23] + rest);
    ReadPacketUnfolds([], []);
    assert ([0x03] + rest)[1..] == rest && ([0x23] + rest)[1..] == rest && [] + [0x03] == [0x03] && [] + [0x23] == [0x23];
  }

  /** Nothing in the payload needs escaping. */
  predicate Plain(s: seq<byte>) {
    forall b :: b in s ==> !Special(b)
  }

  lemma {:induction false} PlainIsItself(s: seq<byte>)
    requires Plain(s)
    ensures Escaped(s) == s
  {
    if s != [] {
      assert s[|s| - 1] in s;
      PlainIsItself(s[..|s| - 1]);
      assert s == s[..|s| - 1] + [s[|s| - 1]];
    }
  }

  function Sending(sent: seq<byte>, r: Reading): Reading {
    r.(sent := sent + r.sent)
  }

  lemma SendingMore(a: seq<byte>, b: seq<byte>, r: Reading)
    ensures Sending(a, Sending(b, r)) == Sending(a + b, r)
  {
    assert a + (b + r.sent) == a + b + r.sent;
  }

  // ---- What arrives ----

  /** Stray octets, then a frame with any body and any two octets in the place of the checksum. */
  datatype Attempt = Attempt(stray: seq<byte>, body: seq<byte>, cs: seq<byte>) {
    predicate Valid() {
      && SOF !in stray && EOF !in stray && (stray != [] ==> stray[0] != INTERRUPT)
      && EOF !in body && |cs| == 2
    }

    predicate Intact()
      requires Valid()
    {
      Number2(cs[0], cs[1]) == Some(Sum(body) % 256)
    }

    function Octets(): seq<byte> {
      stray + [SOF] + body + [EOF] + cs
    }
  }

  lemma {:induction false} Collects(pkt: seq<byte>, s: seq<byte>, input: seq<byte>)
    requires EOF !in s && (pkt == [] && s != [] ==> s[0] != INTERRUPT)
    ensures ReadPacket(pkt, s + input) == ReadPacket(pkt + s, input)
    decreases |s|
  {
    hide Unpack;
    if s == [] {
      assert s + input == input && pkt + s == pkt;
    } else {
      assert (s + input)[1..] == s[1..] + input;
      assert pkt + s == pkt + [s[0]] + s[1..];
      Collects(pkt + [s[0]], s[1..], input);
    }
  }

  /** An attempt is delivered exactly when its checksum is right, and refused with one NAK otherwise. */
  lemma ReadAttempt(a: Attempt, rest: seq<byte>)
    requires a.Valid()
    ensures ReadPacket([], a.Octets() + rest) ==
            if a.Intact() then Reading(Packet(a.body), rest, [0x2b])
            else Sending([0x2d], ReadPacket([], rest))
  {
    hide ReadPacket, Unpack, Find, Number2, Sum;
    var pkt, more := a.stray + [SOF] + a.body, [EOF] + (a.cs + rest);
    assert a.Octets() + rest == pkt + more;
    Collects([], pkt, more);
    assert [] + pkt == pkt;
    FirstStart(a.stray, a.body + [EOF], pkt + [EOF]);
    EndOfFrame(pkt, a.body, a.cs, rest);
  }

  lemma EndOfFrame(pkt: seq<byte>, body: seq<byte>, cs: seq<byte>, rest: seq<byte>)
    requires |cs| == 2 && SOF in pkt + [EOF]
    requires var pkt' := pkt + [EOF]; pkt'[Find(SOF, pkt')..] == [SOF] + (body + [EOF])
    ensures ReadPacket(pkt, [EOF] + (cs + rest)) ==
            if Number2(cs[0], cs[1]) == Some(Sum(body) % 256) then Reading(Packet(body), rest, [ACK])
            else Sending([NAK], ReadPacket([], rest))
  {
    hide ReadPacket, Unpack, Find, Number2, Sum;
    var more := [EOF] + (cs + rest);
    ReadPacketUnfolds(pkt, more);
    assert more[1..] == cs + rest && Take(more[1..], 2) == cs && more[1..][2..] == rest;
    UnpackFrame(body, cs);
    assert [SOF] + (body + [EOF]) + cs == [SOF] + body + [EOF] + cs;
  }

  lemma FirstStart(stray: seq<byte>, tail: seq<byte>, pkt: seq<byte>)
    requires SOF !in stray && pkt == stray + [SOF] + tail
    ensures SOF in pkt && pkt[Find(SOF, pkt)..] == [SOF] + tail
  {
    assert pkt[|stray|] == SOF && pkt[..|stray|] == stray;
    FindIs(SOF, pkt, |stray|);
  }

  lemma {:induction false} FindIs(b: byte, s: seq<byte>, k: nat)
    requires k < |s| && s[k] == b && b !in s[..k]
    ensures Find(b, s) == k
  {
    assert k > 0 ==> s[..k][0] == s[0] && s[..k][1..] == s[1..][..k - 1];
    if k > 0 {
      FindIs(b, s[1..], k - 1);
    }
  }

  lemma UnpackFrame(body: seq<byte>, cs: seq<byte>)
    requires |cs| == 2
    ensures Unpack([SOF] + body + [EOF] + cs) ==
            if Number2(cs[0], cs[1]) == Some(Sum(body) % 256) then Some(body) else None
  {
    var pkt := [SOF] + body + [EOF] + cs;
    assert pkt[1..|pkt| - 3] == body;
  }

  /** The damaged attempts `bad`, then `tail`. */
  function Arriving(bad: seq<Attempt>, tail: seq<byte>): seq<byte> {
    if bad == [] then tail else bad[0].Octets() + Arriving(bad[1..], tail)
  }

  function Naks(n: nat): (s: seq<byte>)
    ensures |s| == n
  {
    if n == 0 then [] else [NAK] + Naks(n - 1)
  }

  lemma {:induction false} RefusesDamaged(bad: seq<Attempt>, tail: seq<byte>)
    requires forall i :: 0 <= i < |bad| ==> bad[i].Valid() && !bad[i].Intact()
    ensures ReadPacket([], Arriving(bad, tail)) == Sending(Naks(|bad|), ReadPacket([], tail))
  {
    hide ReadPacket;
    if bad == [] {
      assert Sending([], ReadPacket([], tail)) == ReadPacket([], tail);
    } else {
      RefusesDamaged(bad[1..], tail);
      ReadAttempt(bad[0], Arriving(bad[1..], tail));
      SendingMore([NAK], Naks(|bad| - 1), ReadPacket([], tail));
    }
  }

  lemma AcceptsGood(stray: seq<byte>, payload: seq<byte>, rest: seq<byte>)
    requires SOF !in stray && EOF !in stray && (stray != [] ==> stray[0] != INTERRUPT)
    ensures ReadPacket([], stray + Frame(payload) + rest) == Reading(Packet(Escaped(payload)), rest, [ACK])
  {
    hide ReadPacket, Escaped, Number2, Sum;
    var body := Escaped(payload);
    var a := Attempt(stray, body, Checksum(body));
    EscapedIsPlain(payload);
    ChecksumReadsBack(body);
    ReadAttempt(a, rest);
    assert a.Octets() == stray + Frame(payload);
  }

  /**
   * After any number of damaged frames the receiver delivers the escaped payload of the first good frame;
   * it has sent one NAK for each damaged one and then one ACK, and has read no further.
   */
  lemma Resynchronises(bad: seq<Attempt>, stray: seq<byte>, payload: seq<byte>, rest: seq<byte>)
    requires forall i :: 0 <= i < |bad| ==> bad[i].Valid() && !bad[i].Intact()
    requires SOF !in stray && EOF !in stray && (stray != [] ==> stray[0] != INTERRUPT)
    ensures ReadPacket([], Arriving(bad, stray + Frame(payload) + rest)) ==
            Reading(Packet(Escaped(payload)), rest, Naks(|bad|) + [ACK])
    ensures Unescaped(Escaped(payload)) == Some(payload)
  {
    hide ReadPacket;
    DecodeInvertsEncode(payload);
    AcceptsGood(stray, payload, rest);
    RefusesDamaged(bad, stray + Frame(payload) + rest);
  }
}
