/**
 * Message framing: a two-octet length before each message, read back through a transport that delivers
 * what it has in pieces of its own choosing.
 */
module HioLink {
  import opened Bytes
  import opened Wrappers

  /** What arrives: octets, and moments at which a read times out empty-handed. */
  datatype Item = Octet(value: byte) | Quiet

  function Octets(bs: seq<byte>): (s: seq<Item>)
    ensures |s| == |bs|
  {
    seq(|bs|, i requires 0 <= i < |bs| => Octet(bs[i]))
  }

  function Frame(msg: seq<byte>): seq<byte> {
    ToLE(|msg|, 2) + msg
  }

  /** The octets of a frame. */
  lemma FrameOctets(msg: seq<byte>)
    requires |msg| < 0x10000
    ensures Frame(msg) == [|msg| % 256, |msg| / 256] + msg
  {
    LE2(|msg|);
    hide ToLE;
  }

  /** `n` octets from the front, or the moment the transport went quiet before there were `n`. */
  datatype Gathered = Full(data: seq<byte>, rest: seq<Item>) | Short(rest: seq<Item>)

  function Gather(items: seq<Item>, n: nat): (g: Gathered)
    ensures |g.rest| <= |items| && (n > 0 && items != [] ==> |g.rest| < |items|)
    ensures g.Full? ==> |g.data| == n
  {
    if n == 0 then Full([], items)
    else if items == [] then Short([])
    else if items[0].Quiet? then Short(items[1..])
    else Prepend([items[0].value], Gather(items[1..], n - 1))
  }

  function Prepend(bs: seq<byte>, g: Gathered): Gathered {
    match g
    case Full(data, rest) => Full(bs + data, rest)
    case Short(rest) => Short(rest)
  }

  lemma PrependEnds(a: seq<byte>, items: seq<Item>, g: Gathered)
    ensures Prepend([], g) == g && Prepend(a, Short(items)) == Short(items)
    ensures Prepend(a, Gather(items, 0)) == Full(a, items)
  {
    if g.Full? {
      assert [] + g.data == g.data;
    }
    assert a + [] == a;
  }

  lemma PrependTwice(a: seq<byte>, b: seq<byte>, g: Gathered)
    ensures Prepend(a, Prepend(b, g)) == Prepend(a + b, g)
  {
    if g.Full? {
      assert a + (b + g.data) == a + b + g.data;
    }
  }

  /** What one call of readmsg returns, and what it leaves. */
  function ReadMsgSpec(items: seq<Item>): (r: (Option<seq<byte>>, seq<Item>))
    ensures |r.1| <= |items| && (items != [] ==> |r.1| < |items|)
  {
    match Gather(items, 2)
    case Short(rest) => (None, rest)
    case Full(hdr, rest) =>
      match Gather(rest, FromLE(hdr))
      case Short(rest') => (None, rest')
      case Full(msg, rest') => (Some(msg), rest')
  }

  /** The messages that calling readmsg again and again returns. */
  function ReadAll(items: seq<Item>): seq<seq<byte>>
    decreases |items|
  {
    if items == [] then []
    else
      var (msg, rest) := ReadMsgSpec(items);
      (if msg.Some? then [msg.value] else []) + ReadAll(rest)
  }

  // ---- The transport and the reader ----

  class Link {
    var items: seq<Item>
    var calls: nat
    const cut: nat -> nat   // how much each read happens to return

    constructor (items: seq<Item>, cut: nat -> nat)
      ensures this.items == items && this.cut == cut
    {
      this.items, calls, this.cut := items, 0, cut;
    }

    /** At most `n` octets; none when the transport is quiet. */
    method Read(n: nat) returns (b: seq<byte>)
      requires n > 0
      modifies this
      ensures |b| <= n
      ensures b == [] ==> Gather(old(items), n) == Short(items)
      ensures old(items) == Octets(b) + items || (b == [] && old(items) != [] && items == old(items)[1..])
    {
      var avail := 0;
      while avail < n && avail < |items| && items[avail].Octet?
        invariant avail <= n && avail <= |items|
        invariant forall i :: 0 <= i < avail ==> items[i].Octet?
      {
        avail := avail + 1;
      }
      if avail == 0 {
        b := [];
        if items != [] {
          items := items[1..];
        }
        return;
      }
      var k := 1 + cut(calls) % avail;
      calls := calls + 1;
      b := [];
      for i := 0 to k
        invariant |b| == i && Octets(b) == items[..i]
      {
        b := b + [items[i].value];
      }
      items := items[k..];
    }

    /** Collects exactly `n` octets, however the transport cuts them up. */
    method ReadExactly(n: nat) returns (data: Option<seq<byte>>)
      modifies this
      ensures match Gather(old(items), n)
              case Full(d, rest) => data == Some(d) && items == rest
              case Short(rest) => data == None && items == rest
    {
      hide Gather, Prepend;
      var got: seq<byte> := [];
      ghost var all := items;
      PrependEnds([], items, Gather(items, n));
      while |got| < n
        invariant |got| <= n
        invariant Gather(all, n) == Prepend(got, Gather(items, n - |got|))
        decreases n - |got|
      {
        var b := Read(n - |got|);
        if b == [] {
          PrependEnds(got, items, Short(items));
          return None;
        }
        GatherMore(b, items, n - |got|);
        PrependTwice(got, b, Gather(items, n - |got| - |b|));
        got := got + b;
      }
      PrependEnds(got, items, Short(items));
      return Some(got);
    }

    /** Reads one message; the way the transport cuts the octets makes no difference. */
    method ReadMsg() returns (msg: Option<seq<byte>>)
      modifies this
      ensures (msg, items) == ReadMsgSpec(old(items))
    {
      var hdr := ReadExactly(2);
      if hdr == None {
        return None;
      }
      msg := ReadExactly(FromLE(hdr.value));
    }
  }

  /**
   * Refuses messages above the size limit; otherwise returns the octets written, from which a reader takes
   * exactly the message, whatever follows.
   */
  method WriteMsg(msg: seq<byte>, hiomaxsize: nat) returns (written: Option<seq<byte>>)
    requires hiomaxsize < 0x10000
    ensures written.Some? <==> |msg| <= hiomaxsize
    ensures written.Some? ==> written.value == Frame(msg) &&
                              forall rest :: ReadMsgSpec(Octets(written.value) + rest) == (Some(msg), rest)
  {
    if |msg| > hiomaxsize {
      return None;
    }
    forall rest ensures ReadMsgSpec(Octets(Frame(msg)) + rest) == (Some(msg), rest) {
      ReadOneFrame(msg, rest);
    }
    return Some(ToLE(|msg|, 2) + msg);
  }

  lemma {:induction false} GatherMore(b: seq<byte>, items: seq<Item>, n: nat)
    requires |b| <= n
    ensures Gather(Octets(b) + items, n) == Prepend(b, Gather(items, n - |b|))
  {
    var g := Gather(items, n - |b|);
    if b == [] {
      assert Octets(b) + items == items;
      assert g.Full? ==> [] + g.data == g.data;
    } else {
      GatherMore(b[1..], items, n - 1);
      assert (Octets(b) + items)[1..] == Octets(b[1..]) + items;
      PrependTwice([b[0]], b[1..], g);
      assert [b[0]] + b[1..] == b;
    }
  }

  lemma ReadOneFrame(msg: seq<byte>, rest: seq<Item>)
    requires |msg| < 0x10000
    ensures ReadMsgSpec(Octets(Frame(msg)) + rest) == (Some(msg), rest)
  {
    var hdr := ToLE(|msg|, 2);
    assert Octets(Frame(msg)) + rest == Octets(hdr) + (Octets(msg) + rest);
    GatherMore(hdr, Octets(msg) + rest, 2);
    GatherMore(msg, rest, |msg|);
    LE2(|msg|);
    assert hdr + [] == hdr && msg + [] == msg;
  }

  // ---- Whole sessions ----

  function Quiets(n: nat): (s: seq<Item>)
    ensures |s| == n
  {
    seq(n, _ => Quiet)
  }

  /** The frames of `msgs`, with `gaps[i]` quiet moments before the i-th. */
  function Delivery(msgs: seq<seq<byte>>, gaps: seq<nat>): seq<Item>
    requires |gaps| == |msgs|
  {
    if msgs == [] then []
    else Quiets(gaps[0]) + Octets(Frame(msgs[0])) + Delivery(msgs[1..], gaps[1..])
  }

  lemma {:induction false} SkipQuiets(n: nat, items: seq<Item>)
    ensures ReadAll(Quiets(n) + items) == ReadAll(items)
  {
    if n == 0 {
      assert Quiets(n) + items == items;
    } else {
      SkipQuiets(n - 1, items);
      assert (Quiets(n) + items)[1..] == Quiets(n - 1) + items;
      assert Gather(Quiets(n) + items, 2) == Short(Quiets(n - 1) + items);
      assert [] + ReadAll(Quiets(n - 1) + items) == ReadAll(Quiets(n - 1) + items);
    }
  }

  /**
   * Whatever messages are written, whatever quiet there is between them, and however the transport cuts
   * the octets, reading returns exactly the messages in order.
   */
  lemma {:induction false} SessionRoundTrip(msgs: seq<seq<byte>>, gaps: seq<nat>)
    requires |gaps| == |msgs| && forall i :: 0 <= i < |msgs| ==> |msgs[i]| < 0x10000
    ensures ReadAll(Delivery(msgs, gaps)) == msgs
  {
    if msgs != [] {
      var rest := Delivery(msgs[1..], gaps[1..]);
      var frame := Octets(Frame(msgs[0]));
      assert Delivery(msgs, gaps) == Quiets(gaps[0]) + (frame + rest);
      SkipQuiets(gaps[0], frame + rest);
      ReadOneFrame(msgs[0], rest);
      SessionRoundTrip(msgs[1..], gaps[1..]);
      assert msgs == [msgs[0]] + msgs[1..];
    }
  }
}
