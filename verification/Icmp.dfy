/**
 * The checksum of ICMP echo requests (section 1 of RFC 1071), computed over header and payload in turn with
 * one fold after each.
 */
module Icmp {
  import opened Bytes

  /** The sum of the big-endian 16-bit words, an odd last octet being the high half of its word. */
  function WordSum(buf: seq<byte>): nat {
    if buf == [] then 0
    else if |buf| == 1 then 256 * buf[0] as int
    else 256 * buf[0] as int + buf[1] as int + WordSum(buf[2..])
  }

  function Fold(s: nat): nat {
    s / 0x10000 % 0x10000 + s % 0x10000
  }

  function Checksum(buf: seq<byte>, s: nat): nat {
    Fold(s + WordSum(buf))
  }

  const ICMPV6_ECHO_REQUEST: byte := 128

  function Header(kind: byte, code: byte, cksum: nat, id: nat, sequence: nat): seq<byte>
    requires cksum < 0x10000 && id < 0x10000 && sequence < 0x10000
  {
    [kind, code, cksum / 256, cksum % 256, id / 256, id % 256, sequence / 256, sequence % 256]
  }

  class Echo {
    var buffer: seq<byte>

    /**
     * An echo request; ICMPv6 requests are sent without a checksum of their own. The fields and the payload
     * are where a receiver looks for them, and it accepts the sum exactly when the checksum did not overflow.
     */
    constructor (kind: byte, code: byte, id: nat, sequence: nat, payload: seq<byte>)
      requires id < 0x10000 && sequence < 0x10000
      ensures |buffer| == 8 + |payload| && buffer[0] == kind && buffer[1] == code && buffer[8..] == payload
      ensures 256 * buffer[4] as int + buffer[5] as int == id && 256 * buffer[6] as int + buffer[7] as int == sequence
      ensures kind == 128 ==> buffer[2] == buffer[3] == 0xff
      ensures kind != ICMPV6_ECHO_REQUEST &&
              Checksum(Header(kind, code, 0, id, sequence), 0) + WordSum(payload) < 0x1_0000_0000 ==>
                (WordSum(buffer) % 0xffff == 0 <==> Chained(kind, code, id, sequence, payload) <= 0xffff)
    {
      var hdr := Header(kind, code, 0, id, sequence);
      var cksum := 0;
      if kind != ICMPV6_ECHO_REQUEST {
        cksum := Checksum(hdr, 0);
        cksum := Checksum(payload, cksum);
      }
      buffer := Header(kind, code, 0xffff - cksum % 0x10000, id, sequence) + payload;
      new;
      assert buffer == Packet(kind, code, id, sequence, payload);
      assert buffer[8..] == payload;
      hide WordSum, Chained, Checksum;
      if kind != ICMPV6_ECHO_REQUEST &&
         Checksum(Header(kind, code, 0, id, sequence), 0) + WordSum(payload) < 0x1_0000_0000
      {
        PacketVerifiesIff(kind, code, id, sequence, payload);
      }
    }
  }

  /** The checksum of header and payload before it is complemented. */
  function Chained(kind: byte, code: byte, id: nat, sequence: nat, payload: seq<byte>): nat
    requires id < 0x10000 && sequence < 0x10000
  {
    if kind == ICMPV6_ECHO_REQUEST then 0
    else Checksum(payload, Checksum(Header(kind, code, 0, id, sequence), 0))
  }

  function Packet(kind: byte, code: byte, id: nat, sequence: nat, payload: seq<byte>): seq<byte>
    requires id < 0x10000 && sequence < 0x10000
  {
    var cksum := Chained(kind, code, id, sequence, payload);
    Header(kind, code, 0xffff - cksum % 0x10000, id, sequence) + payload
  }

  // ---- What it computes ----

  /** Folding keeps the residue modulo 65535, and leaves at most 17 bits, as long as 32 bits are enough. */
  lemma FoldKeepsResidue(s: nat)
    requires s < 0x1_0000_0000
    ensures Fold(s) % 0xffff == s % 0xffff && Fold(s) <= 0x1fffe
  {
    var q, r := s / 0x10000, s % 0x10000;
    assert s == 0x10000 * q + r;
    var m, t := (q + r) / 0xffff, (q + r) % 0xffff;
    assert s == (q + m) * 0xffff + t;
    DivModUnique(s, q + m, t, 0xffff);
  }

  /** The words of the sum are big-endian, and an odd last octet counts as if a zero followed it. */
  lemma {:induction false} WordSumIs(a: byte, b: byte, buf: seq<byte>)
    ensures WordSum([]) == 0 && WordSum([a, b]) == 256 * a as int + b as int
    ensures |buf| % 2 == 1 ==> WordSum(buf) == WordSum(buf + [0])
  {
    assert [a, b][2..] == [];
    if |buf| > 2 {
      WordSumIs(a, b, buf[2..]);
      assert (buf + [0])[2..] == buf[2..] + [0];
    } else if |buf| == 1 {
      assert (buf + [0])[2..] == [];
    }
  }

  lemma {:induction false} WordSumSplits(a: seq<byte>, b: seq<byte>)
    requires |a| % 2 == 0
    ensures WordSum(a + b) == WordSum(a) + WordSum(b)
  {
    if a == [] {
      assert a + b == b;
    } else {
      WordSumSplits(a[2..], b);
      assert (a + b)[2..] == a[2..] + b;
    }
  }

  lemma HeaderSum(kind: byte, code: byte, cksum: nat, id: nat, sequence: nat)
    requires cksum < 0x10000 && id < 0x10000 && sequence < 0x10000
    ensures WordSum(Header(kind, code, cksum, id, sequence)) ==
            256 * kind as int + code as int + cksum + id + sequence
  {
    var h := Header(kind, code, cksum, id, sequence);
    assert WordSum(h[6..]) == sequence by {
      assert h[6..][2..] == [];
    }
    assert WordSum(h[4..]) == id + sequence by {
      assert h[4..][2..] == h[6..];
    }
    assert WordSum(h[2..]) == cksum + id + sequence by {
      assert h[2..][2..] == h[4..];
    }
  }

  lemma ResidueAdds(a: nat, b: nat, c: nat)
    requires a % 0xffff == b % 0xffff
    ensures (a + c) % 0xffff == (b + c) % 0xffff
  {
  }

  /** The chained checksum is congruent to the sum of all words and fits 17 bits. */
  lemma ChainedIsSum(kind: byte, code: byte, id: nat, sequence: nat, payload: seq<byte>)
    requires id < 0x10000 && sequence < 0x10000 && kind != ICMPV6_ECHO_REQUEST
    requires Checksum(Header(kind, code, 0, id, sequence), 0) + WordSum(payload) < 0x1_0000_0000
    ensures var c, hdr := Chained(kind, code, id, sequence, payload), Header(kind, code, 0, id, sequence);
            c % 0xffff == WordSum(hdr + payload) % 0xffff && c <= 0x1fffe
  {
    var hdr := Header(kind, code, 0, id, sequence);
    assert |hdr| == 8;
    hide WordSum, Fold, Header;
    HeaderSum(kind, code, 0, id, sequence);
    FoldKeepsResidue(WordSum(hdr));
    FoldKeepsResidue(Checksum(hdr, 0) + WordSum(payload));
    SameResidue(Checksum(hdr, 0), WordSum(hdr), WordSum(payload), Chained(kind, code, id, sequence, payload));
    WordSumSplits(hdr, payload);
  }

  lemma SameResidue(a: nat, b: nat, c: nat, d: nat)
    requires a % 0xffff == b % 0xffff && d % 0xffff == (a + c) % 0xffff
    ensures d % 0xffff == (b + c) % 0xffff
  {
    ResidueAdds(a, b, c);
  }

  /** The packet passes the receiver's check exactly when the chained checksum did not overflow 16 bits. */
  lemma PacketVerifiesIff(kind: byte, code: byte, id: nat, sequence: nat, payload: seq<byte>)
    requires id < 0x10000 && sequence < 0x10000 && kind != ICMPV6_ECHO_REQUEST
    requires Checksum(Header(kind, code, 0, id, sequence), 0) + WordSum(payload) < 0x1_0000_0000
    ensures WordSum(Packet(kind, code, id, sequence, payload)) % 0xffff == 0 <==>
            Chained(kind, code, id, sequence, payload) <= 0xffff
  {
    hide WordSum, Fold, Header, Checksum, Chained;
    var c := Chained(kind, code, id, sequence, payload);
    ChainedIsSum(kind, code, id, sequence, payload);
    PacketSum(kind, code, id, sequence, payload);
    ResidueAdds(c, WordSum(Header(kind, code, 0, id, sequence) + payload), 0xffff - c % 0x10000);
    Complement(c);
  }

  lemma PacketSum(kind: byte, code: byte, id: nat, sequence: nat, payload: seq<byte>)
    requires id < 0x10000 && sequence < 0x10000
    ensures WordSum(Packet(kind, code, id, sequence, payload)) ==
            WordSum(Header(kind, code, 0, id, sequence) + payload) +
            (0xffff - Chained(kind, code, id, sequence, payload) % 0x10000)
  {
    hide WordSum, Chained;
    var field := 0xffff - Chained(kind, code, id, sequence, payload) % 0x10000;
    HeaderSum(kind, code, 0, id, sequence);
    HeaderSum(kind, code, field, id, sequence);
    WordSumSplits(Header(kind, code, 0, id, sequence), payload);
    WordSumSplits(Header(kind, code, field, id, sequence), payload);
  }

  lemma Complement(c: nat)
    requires c <= 0x1fffe
    ensures (c + (0xffff - c % 0x10000)) % 0xffff == 0 <==> c <= 0xffff
  {
  }

  /** A request that every receiver must reject: its payload makes the last fold carry. */
  lemma RejectedExample()
    ensures Chained(8, 0, 0, 0, [0xff, 0xff, 0xf8, 0x00]) == 0x10000
    ensures WordSum(Packet(8, 0, 0, 0, [0xff, 0xff, 0xf8, 0x00])) % 0xffff != 0
  {
    var payload: seq<byte> := [0xff, 0xff, 0xf8, 0x00];
    assert WordSum(payload) == 0x1f7ff by {
      assert payload[2..] == [0xf8, 0x00] && payload[2..][2..] == [];
    }
    HeaderSum(8, 0, 0, 0, 0);
    hide WordSum, Header;
    assert Checksum(Header(8, 0, 0, 0, 0), 0) == 0x800;
    assert Checksum(payload, 0x800) == 0x10000;
    PacketVerifiesIff(8, 0, 0, 0, payload);
  }
}
