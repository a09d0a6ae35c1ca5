/**
 * The boot ROM's command stream: printing, parsing, and what the device does with it.
 */
module BootCommand {
  import opened Bytes
  import opened Thumb
  import opened Wrappers

  const SYNC: byte := 0x7e
  const READ: byte := 1
  const WRITE: byte := 2
  const ARGS: byte := 7

  datatype Command = Command(op: byte, length: nat, addr: nat, data: seq<byte>) {
    /** What the header's fields can hold, and a payload on WRITE commands only. */
    ghost predicate Valid() {
      && length < 0x10000 && addr < WORD
      && (if op == WRITE then |data| == length else data == [])
    }

    function Header(): (h: seq<byte>)
      ensures |h| == 8 && h[0] == SYNC && h[1] == op
      ensures h[2..4] == ToLE(length, 2) && h[4..] == ToLE(addr, 4)
    {
      [SYNC, op] + ToLE(length, 2) + ToLE(addr, 4)
    }

    function Encode(): seq<byte> {
      Header() + data
    }
  }

  function EncodeAll(cs: seq<Command>): seq<byte> {
    if cs == [] then [] else cs[0].Encode() + EncodeAll(cs[1..])
  }

  lemma {:induction false} EncodeAllAppend(xs: seq<Command>, ys: seq<Command>)
    ensures EncodeAll(xs + ys) == EncodeAll(xs) + EncodeAll(ys)
  {
    if xs == [] {
      assert xs + ys == ys;
    } else {
      EncodeAllAppend(xs[1..], ys);
      assert (xs + ys)[1..] == xs[1..] + ys && (xs + ys)[0] == xs[0];
      assert xs[0].Encode() + (EncodeAll(xs[1..]) + EncodeAll(ys)) == EncodeAll(xs) + EncodeAll(ys);
    }
  }

  datatype Parsed = Got(cmd: Command, rest: seq<byte>) | End | Malformed

  /** One command from the front of `s`. */
  function Parse(s: seq<byte>): (p: Parsed)
    ensures p.End? <==> s == []
    ensures p.Got? ==> p.cmd.Valid() && s == p.cmd.Encode() + p.rest
  {
    if s == [] then End
    else if |s| < 8 || s[0] != SYNC then Malformed
    else
      var length := FromLE(s[2..4]);
      var addr := FromLE(s[4..8]);
      HeaderFields(s[..8]);
      assert s[..8][2..4] == s[2..4] && s[..8][4..8] == s[4..8];
      if s[1] != WRITE then
        assert s == s[..8] + [] + s[8..];
        Got(Command(s[1], length, addr, []), s[8..])
      else if |s| < 8 + length then Malformed
      else
        assert s == s[..8] + s[8..8 + length] + s[8 + length..];
        Got(Command(WRITE, length, addr, s[8..8 + length]), s[8 + length..])
  }

  lemma HeaderFields(h: seq<byte>)
    requires |h| == 8 && h[0] == SYNC
    ensures FromLE(h[2..4]) < 0x10000 && FromLE(h[4..8]) < WORD
    ensures forall data :: Command(h[1], FromLE(h[2..4]), FromLE(h[4..8]), data).Header() == h
  {
    ToFromLE(h[2..4]);
    ToFromLE(h[4..8]);
    FromLE4(h[4..8]);
    assert Pow256(2) == 256 * Pow256(1) == 65536;
    assert h == [h[0], h[1]] + h[2..4] + h[4..8];
  }

  /** Every command of `s`, or `None` where the reader raises an error. */
  function ParseAll(s: seq<byte>): (r: Option<seq<Command>>)
  {
    match Parse(s)
    case End => Some([])
    case Malformed => None
    case Got(c, rest) =>
      match ParseAll(rest)
      case None => None
      case Some(cs) => Some([c] + cs)
  }

  lemma ParseEncode(c: Command, rest: seq<byte>)
    requires c.Valid()
    ensures Parse(c.Encode() + rest) == Got(c, rest)
  {
    hide ToLE, FromLE;
    var s := c.Encode() + rest;
    assert s[..8] == c.Header() && s[2..4] == c.Header()[2..4] && s[4..8] == c.Header()[4..];
    LE2(c.length);
    LE4(c.addr);
    assert s[8..] == c.data + rest;
    if c.op == WRITE {
      assert s[8..8 + c.length] == c.data && s[8 + c.length..] == rest;
    } else {
      assert s[8..] == rest;
    }
  }

  /** Reading back what was printed yields exactly the commands, whatever they are. */
  lemma {:induction false} ParseInvertsPrint(cs: seq<Command>)
    requires forall i :: 0 <= i < |cs| ==> cs[i].Valid()
    ensures ParseAll(EncodeAll(cs)) == Some(cs)
  {
    hide Parse;
    if cs != [] {
      ParseEncode(cs[0], EncodeAll(cs[1..]));
      ParseInvertsPrint(cs[1..]);
      assert cs == [cs[0]] + cs[1..];
    }
  }

  /** Whatever the reader accepts is the printed form of what it returns: nothing is lost or invented. */
  lemma {:induction false} PrintInvertsParse(s: seq<byte>)
    requires ParseAll(s).Some?
    ensures EncodeAll(ParseAll(s).value) == s
    ensures forall i :: 0 <= i < |ParseAll(s).value| ==> ParseAll(s).value[i].Valid()
    decreases |s|
  {
    match Parse(s)
    case End =>
    case Malformed =>
    case Got(c, rest) =>
      PrintInvertsParse(rest);
      assert ParseAll(s).value[1..] == ParseAll(rest).value;
  }

  datatype Next = Item(cmd: Command) | Finished | Truncated

  /** An in-memory stream with a read position. */
  class Reader {
    const data: seq<byte>
    var pos: nat

    constructor (data: seq<byte>)
      ensures this.data == data && pos == 0
    {
      this.data := data;
      pos := 0;
    }

    ghost function Rest(): seq<byte>
      reads this
      requires pos <= |data|
    {
      data[pos..]
    }

    method Read(n: nat) returns (b: seq<byte>)
      requires pos <= |data|
      modifies this
      ensures pos <= |data| && b + Rest() == old(Rest()) && |b| == if n <= |old(Rest())| then n else |old(Rest())|
    {
      var end := if pos + n <= |data| then pos + n else |data|;
      b := data[pos..end];
      pos := end;
    }

    /** Takes one command off the stream. */
    method FromStream() returns (r: Next)
      requires pos <= |data|
      modifies this
      ensures pos <= |data|
      ensures match Parse(old(Rest()))
              case End => r == Finished
              case Malformed => r == Truncated
              case Got(c, rest) => r == Item(c) && Rest() == rest
    {
      ghost var s := Rest();
      var hdr := Read(8);
      if hdr == [] {
        return Finished;
      }
      if |hdr| < 8 || hdr[0] != SYNC {
        return Truncated;
      }
      assert hdr == s[..8] && s[8..] == Rest() && hdr[2..4] == s[2..4] && hdr[4..8] == s[4..8];
      var length := FromLE(hdr[2..4]);
      var addr := FromLE(hdr[4..8]);
      if hdr[1] != WRITE {
        return Item(Command(hdr[1], length, addr, []));
      }
      var data := Read(length);
      if |data| != length {
        return Truncated;
      }
      assert data == s[8..][..length] == s[8..8 + length] && Rest() == s[8 + length..];
      return Item(Command(WRITE, length, addr, data));
    }
  }

  // ---- The device's side ----

  function Execute(m: Mem, c: Command): Mem {
    if c.op == WRITE then Store(m, c.addr, c.data) else m
  }

  function ExecuteAll(m: Mem, cs: seq<Command>): Mem {
    if cs == [] then m else Execute(ExecuteAll(m, cs[..|cs| - 1]), cs[|cs| - 1])
  }

  lemma {:induction false} ExecuteAppend(m: Mem, xs: seq<Command>, ys: seq<Command>)
    ensures ExecuteAll(m, xs + ys) == ExecuteAll(ExecuteAll(m, xs), ys)
  {
    if ys == [] {
      assert xs + ys == xs;
    } else {
      var n := |ys| - 1;
      ExecuteAppend(m, xs, ys[..n]);
      assert (xs + ys)[..|xs + ys| - 1] == xs + ys[..n];
    }
  }

  // ---- Verify mode ----

  predicate IsRamAddress(addr: int) {
    0x40000 <= addr < 0xc0000
  }

  predicate ReadBack(c: Command) {
    c.op == WRITE && IsRamAddress(c.addr)
  }

  function ReadOf(c: Command): Command {
    Command(READ, c.length, c.addr, [])
  }

  /** The commands that verify mode sends for `cs`. */
  function WithReads(cs: seq<Command>): seq<Command> {
    if cs == [] then []
    else WithReads(cs[..|cs| - 1]) + [cs[|cs| - 1]] + if ReadBack(cs[|cs| - 1]) then [ReadOf(cs[|cs| - 1])] else []
  }

  function CountReads(cs: seq<Command>): nat {
    if cs == [] then 0 else CountReads(cs[..|cs| - 1]) + if ReadBack(cs[|cs| - 1]) then 1 else 0
  }

  /** The answers agree with everything that was written to RAM. */
  ghost predicate Confirmed(cs: seq<Command>, replies: nat -> seq<byte>) {
    forall i :: 0 <= i < |cs| && ReadBack(cs[i]) ==> replies(CountReads(cs[..i])) == cs[i].data
  }

  /** What a device with memory `m` answers to the commands it receives: the octets that each READ names. */
  function Answers(m: Mem, cs: seq<Command>): seq<seq<byte>> {
    if cs == [] then []
    else
      var init, c := cs[..|cs| - 1], cs[|cs| - 1];
      Answers(m, init) + if c.op == 1 then [Fetch(ExecuteAll(m, init), c.addr, c.length)] else []
  }

  /** The replies are the answers of a device that receives what verify mode sends. */
  ghost predicate Honest(m: Mem, cs: seq<Command>, replies: nat -> seq<byte>) {
    forall k :: 0 <= k < |Answers(m, WithReads(cs))| ==> replies(k) == Answers(m, WithReads(cs))[k]
  }

  /** No READ comes before a write that is read back. */
  ghost predicate ReadsLast(cs: seq<Command>) {
    forall i, j :: 0 <= i < j < |cs| && cs[i].op == READ ==> !ReadBack(cs[j])
  }

  lemma {:induction false} WithReadsMemory(m: Mem, cs: seq<Command>)
    ensures ExecuteAll(m, WithReads(cs)) == ExecuteAll(m, cs)
  {
    if cs != [] {
      var n := |cs| - 1;
      WithReadsMemory(m, cs[..n]);
      ExecuteAppend(m, WithReads(cs[..n]), [cs[n]]);
      if ReadBack(cs[n]) {
        ExecuteAppend(m, WithReads(cs[..n]) + [cs[n]], [ReadOf(cs[n])]);
      } else {
        assert WithReads(cs) == WithReads(cs[..n]) + [cs[n]];
      }
    }
  }

  lemma AnswersSnoc(m: Mem, cs: seq<Command>, c: Command)
    ensures Answers(m, cs + [c]) ==
            Answers(m, cs) + if c.op == 1 then [Fetch(ExecuteAll(m, cs), c.addr, c.length)] else []
  {
    assert (cs + [c])[..|cs|] == cs;
  }

  lemma {:induction false} AnswersExtend(m: Mem, xs: seq<Command>, ys: seq<Command>)
    ensures Answers(m, xs) <= Answers(m, xs + ys)
  {
    if ys == [] {
      assert xs + ys == xs;
    } else {
      var n := |ys| - 1;
      AnswersExtend(m, xs, ys[..n]);
      assert xs + ys == (xs + ys[..n]) + [ys[n]];
      AnswersSnoc(m, xs + ys[..n], ys[n]);
      hide Answers;
    }
  }

  lemma {:induction false} WithReadsExtend(xs: seq<Command>, ys: seq<Command>)
    ensures WithReads(xs) <= WithReads(xs + ys)
  {
    if ys == [] {
      assert xs + ys == xs;
    } else {
      WithReadsExtend(xs, ys[..|ys| - 1]);
      assert (xs + ys)[..|xs + ys| - 1] == xs + ys[..|ys| - 1];
    }
  }

  /** One command more, sent and read back. */
  lemma WithReadsSnoc(cs: seq<Command>, c: Command)
    ensures WithReads(cs + [c]) == WithReads(cs) + [c] + if ReadBack(c) then [ReadOf(c)] else []
    ensures CountReads(cs + [c]) == CountReads(cs) + if ReadBack(c) then 1 else 0
  {
    assert (cs + [c])[..|cs|] == cs;
  }

  /** A write that is read back is answered with its data. */
  lemma WriteIsAnswered(m: Mem, cs: seq<Command>, c: Command)
    requires c.Valid() && ReadBack(c)
    ensures Answers(m, WithReads(cs + [c])) == Answers(m, WithReads(cs)) + [c.data]
  {
    var w := WithReads(cs);
    WithReadsSnoc(cs, c);
    AnswersSnoc(m, w, c);
    AnswersSnoc(m, w + [c], ReadOf(c));
    assert (w + [c])[..|w|] == w;
    assert Fetch(ExecuteAll(m, w + [c]), c.addr, c.length) == c.data;
    hide Answers, WithReads, ExecuteAll, Fetch;
    assert Answers(m, w) + [] == Answers(m, w);
  }

  /** As many answers as writes read back, while the stream itself has no READ. */
  lemma {:induction false} AnswersCounted(m: Mem, cs: seq<Command>)
    requires forall i :: 0 <= i < |cs| ==> cs[i].Valid() && cs[i].op != READ
    ensures |Answers(m, WithReads(cs))| == CountReads(cs)
  {
    if cs != [] {
      var init, c := cs[..|cs| - 1], cs[|cs| - 1];
      AnswersCounted(m, init);
      assert cs == init + [c];
      WithReadsSnoc(init, c);
      if ReadBack(c) {
        WriteIsAnswered(m, init, c);
      } else {
        AnswersSnoc(m, WithReads(init), c);
        assert WithReads(cs) == WithReads(init) + [c];
      }
    }
  }

  /**
   * Verify mode never rejects a device that does what it is told, unless the stream has READ commands of its
   * own before a RAM write.
   */
  lemma HonestDeviceConfirms(m: Mem, cs: seq<Command>, replies: nat -> seq<byte>)
    requires forall i :: 0 <= i < |cs| ==> cs[i].Valid()
    requires Honest(m, cs, replies) && ReadsLast(cs)
    ensures Confirmed(cs, replies)
  {
    hide Answers, WithReads, CountReads;
    forall i | 0 <= i < |cs| && ReadBack(cs[i]) ensures replies(CountReads(cs[..i])) == cs[i].data {
      var before, c := cs[..i], cs[i];
      assert forall k :: 0 <= k < i ==> before[k] == cs[k];
      AnswersCounted(m, before);
      WriteIsAnswered(m, before, c);
      assert cs == (before + [c]) + cs[i + 1..];
      WithReadsExtend(before + [c], cs[i + 1..]);
      var a, b := WithReads(before + [c]), WithReads(cs);
      assert b == a + b[|a|..];
      AnswersExtend(m, a, b[|a|..]);
      assert Answers(m, b)[CountReads(before)] == c.data;
    }
  }

  /** With a READ in front, its answer is taken for that of the write. */
  lemma EarlyReadExample(m: Mem, replies: nat -> seq<byte>)
    requires m(0x50000) != 1
    requires Honest(m, [Command(READ, 1, 0x50000, []), Command(WRITE, 1, 0x40000, [1])], replies)
    ensures !Confirmed([Command(READ, 1, 0x50000, []), Command(WRITE, 1, 0x40000, [1])], replies)
  {
    var r, w := Command(READ, 1, 0x50000, []), Command(WRITE, 1, 0x40000, [1]);
    var cs := [r, w];
    assert [r] == [] + [r] && cs == [r] + [w];
    WithReadsSnoc([], r);
    WithReadsExtend([r], [w]);
    var a, b := WithReads([r]), WithReads(cs);
    assert a == [] + [r];
    AnswersSnoc(m, [], r);
    assert b == a + b[|a|..];
    AnswersExtend(m, a, b[|a|..]);
    assert Answers(m, b)[0] == Answers(m, a)[0] == Fetch(m, 0x50000, 1);
    assert replies(0)[0] == m(0x50000);
    assert cs[..1] == [r] && CountReads([r]) == 0;
    assert ReadBack(cs[1]);
  }

  // ---- What is sent ----

  /** Every write to RAM is followed by a READ of what it wrote. */
  ghost predicate ReadsBack(cs: seq<Command>) {
    forall i :: 0 <= i < |cs| && cs[i].op == 2 && 0x40000 <= cs[i].addr < 0xc0000 ==>
      i + 1 < |cs| && cs[i + 1] == Command(1, cs[i].length, cs[i].addr, [])
  }

  /** How many writes to RAM there are. */
  function RamWrites(cs: seq<Command>): nat {
    if cs == [] then 0
    else
      var c := cs[|cs| - 1];
      RamWrites(cs[..|cs| - 1]) + if c.op == 2 && 0x40000 <= c.addr < 0xc0000 then 1 else 0
  }

  /** The commands other than READ. */
  function Others(cs: seq<Command>): seq<Command> {
    if cs == [] then [] else Others(cs[..|cs| - 1]) + if cs[|cs| - 1].op == 1 then [] else [cs[|cs| - 1]]
  }

  lemma OthersSnoc(cs: seq<Command>, c: Command)
    ensures Others(cs + [c]) == Others(cs) + if c.op == 1 then [] else [c]
  {
    assert (cs + [c])[..|cs|] == cs;
  }

  ghost predicate AllValid(cs: seq<Command>) {
    forall i :: 0 <= i < |cs| ==> cs[i].Valid()
  }

  lemma ReadsBackSnoc(w: seq<Command>, c: Command)
    requires ReadsBack(w) && AllValid(w) && c.Valid()
    ensures ReadBack(c) ==> ReadsBack(w + [c] + [ReadOf(c)]) && AllValid(w + [c] + [ReadOf(c)])
    ensures !ReadBack(c) ==> ReadsBack(w + [c]) && AllValid(w + [c])
  {
    var v := w + [c] + [ReadOf(c)];
    assert v[|w|] == c && v[|w| + 1] == ReadOf(c) && forall i :: 0 <= i < |w| ==> v[i] == w[i];
  }

  lemma OthersKept(w: seq<Command>, c: Command)
    ensures Others(w + [c] + [ReadOf(c)]) == Others(w + [c]) == Others(w) + if c.op == 1 then [] else [c]
  {
    OthersSnoc(w, c);
    OthersSnoc(w + [c], ReadOf(c));
    hide Others;
    assert Others(w + [c]) + [] == Others(w + [c]);
  }

  /** Verify mode inserts READ commands after the writes to RAM, and does nothing else to the stream. */
  lemma {:induction false} WithReadsInserts(cs: seq<Command>)
    requires AllValid(cs)
    ensures ReadsBack(WithReads(cs)) && Others(WithReads(cs)) == Others(cs) && AllValid(WithReads(cs))
    ensures |WithReads(cs)| == |cs| + RamWrites(cs)
  {
    if cs != [] {
      var init, c := cs[..|cs| - 1], cs[|cs| - 1];
      assert AllValid(init) && c.Valid();
      hide WithReads, Others, ReadsBack, AllValid, ReadBack, ReadOf, RamWrites;
      WithReadsInserts(init);
      InsertsSnoc(init, c);
      assert cs == init + [c];
    }
  }

  lemma InsertsSnoc(cs: seq<Command>, c: Command)
    requires ReadsBack(WithReads(cs)) && AllValid(WithReads(cs)) && c.Valid()
    requires Others(WithReads(cs)) == Others(cs) && |WithReads(cs)| == |cs| + RamWrites(cs)
    ensures var w := WithReads(cs + [c]);
            ReadsBack(w) && AllValid(w) && Others(w) == Others(cs + [c]) && |w| == |cs + [c]| + RamWrites(cs + [c])
  {
    hide WithReads, Others, ReadsBack, AllValid, ReadBack, ReadOf, RamWrites;
    var w := WithReads(cs);
    WithReadsSnoc(cs, c);
    RamWritesSnoc(cs, c);
    OthersSnoc(cs, c);
    OthersKept(w, c);
    ReadsBackSnoc(w, c);
    assert w + [c] + [] == w + [c];
  }

  lemma RamWritesSnoc(cs: seq<Command>, c: Command)
    ensures RamWrites(cs + [c]) == RamWrites(cs) + if ReadBack(c) then 1 else 0
  {
    assert (cs + [c])[..|cs|] == cs;
  }

  /** The octets of a command. */
  lemma CommandOctets(c: Command)
    requires c.Valid()
    ensures c.Encode() == [0x7e, c.op, c.length % 256, c.length / 256, c.addr % 256, c.addr / 0x100 % 256,
                           c.addr / 0x10000 % 256, c.addr / 0x1000000] + c.data
  {
    LE2(c.length);
    LE4(c.addr);
    hide ToLE;
  }

  datatype Transfer = Done(written: nat) | FailedValidation(addr: nat) | BadStream

  class Device {
    var sent: seq<byte>
    var asked: nat
    const replies: nat -> seq<byte>

    constructor (replies: nat -> seq<byte>)
      ensures sent == [] && asked == 0 && this.replies == replies
    {
      this.replies := replies;
      sent := [];
      asked := 0;
    }

    method Write(data: seq<byte>) returns (n: nat)
      modifies this
      ensures sent == old(sent) + data && asked == old(asked) && n == |data|
    {
      sent := sent + data;
      return |data|;
    }

    method ReadMsg() returns (data: seq<byte>)
      modifies this
      ensures sent == old(sent) && asked == old(asked) + 1 && data == replies(old(asked))
    {
      data := replies(asked);
      asked := asked + 1;
    }
  }

  /**
   * Sends the stream command by command and reads every RAM write back. It completes exactly when the
   * stream is well formed and every answer is the data written; what went out is then the stream with
   * READ commands inserted and nothing else.
   */
  method WriteVerified(dev: Device, stream: seq<byte>) returns (r: Transfer)
    requires dev.sent == [] && dev.asked == 0
    modifies dev
    ensures r.Done? <==> ParseAll(stream).Some? && Confirmed(ParseAll(stream).value, dev.replies)
    ensures r.Done? ==> r.written == |stream| && dev.sent == EncodeAll(WithReads(ParseAll(stream).value))
    ensures r.Done? ==> ParseAll(dev.sent).Some? && ReadsBack(ParseAll(dev.sent).value) &&
                        Others(ParseAll(dev.sent).value) == Others(ParseAll(stream).value) &&
                        |ParseAll(dev.sent).value| == |ParseAll(stream).value| + RamWrites(ParseAll(stream).value)
    ensures r.BadStream? ==> ParseAll(stream).None?
  {
    hide Parse, ParseAll, After, WithReads, CountReads, Confirmed, EncodeAll, Command.Encode, ReadBack, ReadOf,
      ReadsBack, Others, RamWrites;
    StartVerifying(dev.replies, stream);
    var reader := new Reader(stream);
    var written := 0;
    ghost var done: seq<Command> := [];
    while true
      invariant fresh(reader) && reader.pos <= |reader.data|
      invariant written == |stream| - |reader.Rest()| && |reader.Rest()| <= |stream|
      invariant dev.sent == EncodeAll(WithReads(done)) && dev.asked == CountReads(done)
      invariant Confirmed(done, dev.replies)
      invariant ParseAll(stream) == After(done, ParseAll(reader.Rest()))
      decreases |reader.Rest()|
    {
      ghost var s := reader.Rest();
      ParsesOn(s, done);
      var next := reader.FromStream();
      match next
      case Finished =>
        SentParses(stream, dev.sent);
        return Done(written);
      case Truncated =>
        return BadStream;
      case Item(cmd) =>
        ghost var before := done;
        done := done + [cmd];
        SentNext(before, cmd);
        PrefixConfirmed(before, cmd, dev.replies);
        ConfirmedBefore(done, ParseAll(reader.Rest()), dev.replies);
        var n, ok := WriteAndCheck(dev, cmd);
        written := written + n;
        if !ok {
          return FailedValidation(cmd.addr);
        }
    }
  }

  /** Sends one command, and reads a RAM write back. */
  method WriteAndCheck(dev: Device, cmd: Command) returns (n: nat, ok: bool)
    modifies dev
    ensures n == |cmd.Encode()|
    ensures dev.sent == old(dev.sent) + cmd.Encode() + if ReadBack(cmd) then ReadOf(cmd).Encode() else []
    ensures dev.asked == old(dev.asked) + if ReadBack(cmd) then 1 else 0
    ensures ok <==> (ReadBack(cmd) ==> dev.replies(old(dev.asked)) == cmd.data)
  {
    hide Command.Encode;
    n := dev.Write(cmd.Encode());
    if cmd.op == WRITE && IsRamAddress(cmd.addr) {
      var _ := dev.Write(ReadOf(cmd).Encode());
      var answer := dev.ReadMsg();
      return n, answer == cmd.data;
    }
    return n, true;
  }

  /** What went out is read as the stream with its reads. */
  lemma SentParses(stream: seq<byte>, sent: seq<byte>)
    ensures ParseAll(stream).Some? && sent == EncodeAll(WithReads(ParseAll(stream).value)) ==>
              && ParseAll(sent).Some? && ReadsBack(ParseAll(sent).value)
              && Others(ParseAll(sent).value) == Others(ParseAll(stream).value)
              && |ParseAll(sent).value| == |ParseAll(stream).value| + RamWrites(ParseAll(stream).value)
  {
    hide ParseAll, WithReads, EncodeAll, ReadsBack, Others, RamWrites;
    if ParseAll(stream).Some? {
      var cs := ParseAll(stream).value;
      PrintInvertsParse(stream);
      WithReadsInserts(cs);
      ParseInvertsPrint(WithReads(cs));
    }
  }

  /** The commands before a point, and what is parsed after it. */
  function After(done: seq<Command>, rest: Option<seq<Command>>): Option<seq<Command>> {
    if rest.None? then None else Some(done + rest.value)
  }

  /** What the next parse does to the commands read so far. */
  lemma ParsesOn(s: seq<byte>, done: seq<Command>)
    ensures match Parse(s)
            case End => After(done, ParseAll(s)) == Some(done)
            case Malformed => After(done, ParseAll(s)) == None
            case Got(c, rest) => |rest| < |s| && After(done, ParseAll(s)) == After(done + [c], ParseAll(rest))
  {
    hide Parse, ParseAll;
    ParseAllStep(s);
    match Parse(s)
    case End => assert done + [] == done;
    case Malformed =>
    case Got(c, rest) => AfterCons(done, c, ParseAll(rest));
  }

  lemma AfterCons(done: seq<Command>, c: Command, r: Option<seq<Command>>)
    ensures After(done, if r.None? then None else Some([c] + r.value)) == After(done + [c], r)
  {
    if r.Some? {
      assert done + ([c] + r.value) == done + [c] + r.value;
    }
  }

  lemma ParseAllStep(s: seq<byte>)
    ensures match Parse(s)
            case End => ParseAll(s) == Some([])
            case Malformed => ParseAll(s) == None
            case Got(c, rest) =>
              |rest| < |s| && ParseAll(s) == if ParseAll(rest).None? then None else Some([c] + ParseAll(rest).value)
  {
    hide Parse;
  }

  lemma ConfirmedBefore(done: seq<Command>, rest: Option<seq<Command>>, replies: nat -> seq<byte>)
    ensures After(done, rest).Some? && Confirmed(After(done, rest).value, replies) ==> Confirmed(done, replies)
  {
    if rest.Some? {
      ConfirmedPrefix(done, rest.value, replies);
    }
  }

  lemma StartVerifying(replies: nat -> seq<byte>, stream: seq<byte>)
    ensures EncodeAll(WithReads([])) == [] && CountReads([]) == 0 && Confirmed([], replies)
    ensures ParseAll(stream) == After([], ParseAll(stream))
  {
    hide ParseAll;
    var r := ParseAll(stream);
    assert r.Some? ==> [] + r.value == r.value;
  }

  lemma SentNext(before: seq<Command>, c: Command)
    ensures EncodeAll(WithReads(before + [c])) ==
              EncodeAll(WithReads(before)) + c.Encode() + if ReadBack(c) then ReadOf(c).Encode() else []
    ensures CountReads(before + [c]) == CountReads(before) + if ReadBack(c) then 1 else 0
  {
    assert (before + [c])[..|before|] == before;
    EncodeAllAppend(WithReads(before), [c]);
    EncodeAllAppend(WithReads(before) + [c], [ReadOf(c)]);
    EncodeAllAppend(WithReads(before) + [c], []);
    assert EncodeAll([c]) == c.Encode() && EncodeAll([ReadOf(c)]) == ReadOf(c).Encode();
  }

  lemma PrefixConfirmed(before: seq<Command>, c: Command, replies: nat -> seq<byte>)
    ensures Confirmed(before + [c], replies) <==>
              Confirmed(before, replies) && (ReadBack(c) ==> replies(CountReads(before)) == c.data)
  {
    var cs := before + [c];
    assert cs[..|before|] == before && cs[|before|] == c;
    assert forall i :: 0 <= i < |before| ==> cs[..i] == before[..i] && cs[i] == before[i];
  }

  lemma ConfirmedPrefix(xs: seq<Command>, ys: seq<Command>, replies: nat -> seq<byte>)
    ensures Confirmed(xs + ys, replies) ==> Confirmed(xs, replies)
  {
    assert forall i :: 0 <= i < |xs| ==> (xs + ys)[..i] == xs[..i] && (xs + ys)[i] == xs[i];
  }
}
