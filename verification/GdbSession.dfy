/**
 * Client and server of the GDB remote protocol talking to each other: what a register access does to the
 * register file when its frames, replies and acknowledgements really cross the wire.
 */
module GdbSession {
  import opened Bytes
  import opened Wrappers
  import opened GdbFrame
  import opened GdbRegisters

  const UPPER_O: byte := 0x4f

  /** A packet of console output, which the reader skips. */
  predicate Console(pkt: seq<byte>) {
    pkt != [] && pkt != OK && pkt[0] == UPPER_O
  }

  /** Console output begins with a capital O, unless it is the answer OK. */
  lemma ConsolePackets(s: seq<byte>, b: byte)
    ensures Console([b] + s) <==> b == 0x4f && s != [0x4b]
    ensures !Console([])
  {
    assert ([b] + s)[1..] == s;
    assert OK == [0x4f] + [0x4b];
    if s == [0x4b] && b == 0x4f {
      assert [b] + s == OK;
    }
  }

  /** The first packet that is not console output. */
  function ReadReply(input: seq<byte>): (r: Reading)
    decreases |input|
  {
    ReadPacketAdvances([], input);
    var r := ReadPacket([], input);
    if r.result.Packet? && Console(r.result.data) then Sending(r.sent, ReadReply(r.rest)) else r
  }

  method ReadPktReply(con: Connection) returns (result: Received)
    modifies con
    ensures var r := ReadReply(old(con.input));
            result == r.result && con.input == r.rest && con.output == old(con.output) + r.sent
  {
    hide ReadPacket, ReadReply;
    ghost var all := Sending(con.output, ReadReply(con.input));
    while true
      invariant all == Sending(con.output, ReadReply(con.input))
      decreases |con.input|
    {
      ReadReplyStep(con.output, con.input);
      result := con.ReadPkt();
      if result.NoStartOfFrame? || !Console(result.data) {
        return;
      }
    }
  }

  lemma ReadReplyStep(output: seq<byte>, input: seq<byte>)
    ensures var r := ReadPacket([], input);
            if r.result.Packet? && Console(r.result.data) then
              Sending(output, ReadReply(input)) == Sending(output + r.sent, ReadReply(r.rest)) && |r.rest| < |input|
            else ReadReply(input) == r
  {
    hide ReadPacket;
    ReadPacketUnfolds([], input);
    ReadPacketAdvances([], input);
    var r := ReadPacket([], input);
    SendingMore(output, r.sent, ReadReply(r.rest));
  }

  /** Frames without anything between them. */
  function Frames(payloads: seq<seq<byte>>, tail: seq<byte>): seq<byte> {
    if payloads == [] then tail else Frame(payloads[0]) + Frames(payloads[1..], tail)
  }

  function Acks(n: nat): seq<byte> {
    if n == 0 then [] else [ACK] + Acks(n - 1)
  }

  lemma ReadFrame(payload: seq<byte>, rest: seq<byte>)
    requires Plain(payload)
    ensures ReadPacket([], Frame(payload) + rest) == Reading(Packet(payload), rest, [ACK])
  {
    hide ReadPacket, Frame;
    AcceptsGood([], payload, rest);
    assert [] + Frame(payload) + rest == Frame(payload) + rest;
    PlainIsItself(payload);
  }

  /** Any amount of console output before a reply is acknowledged and passed over. */
  lemma {:induction false} ConsoleIsSkipped(outs: seq<seq<byte>>, reply: seq<byte>, rest: seq<byte>)
    requires forall i :: 0 <= i < |outs| ==> Console(outs[i]) && Plain(outs[i])
    requires Plain(reply) && !Console(reply)
    ensures ReadReply(Frames(outs, Frame(reply) + rest)) ==
            Reading(Packet(reply), rest, Acks(|outs|) + [ACK])
  {
    hide ReadPacket, Frame, Plain;
    if outs == [] {
      ReadFrame(reply, rest);
      assert Acks(0) + [ACK] == [ACK];
    } else {
      ConsoleIsSkipped(outs[1..], reply, rest);
      ReadFrame(outs[0], Frames(outs[1..], Frame(reply) + rest));
      assert [ACK] + (Acks(|outs| - 1) + [ACK]) == Acks(|outs|) + [ACK];
    }
  }

  lemma ReadReplyFrame(reply: seq<byte>, rest: seq<byte>)
    requires Plain(reply) && !Console(reply)
    ensures ReadReply(Frame(reply) + rest) == Reading(Packet(reply), rest, [ACK])
  {
    ConsoleIsSkipped([], reply, rest);
    assert Acks(0) + [ACK] == [ACK];
  }

  /** Commands and answers that pass through both ends unchanged. */
  predicate Clean(s: seq<byte>) {
    s != [] && Plain(s) && !Console(s)
  }

  /** The client's half: a command, its acknowledgement, and the answer. */
  method Ask(con: Connection, cmd: seq<byte>, ghost answer: seq<byte>) returns (rsp: Option<seq<byte>>)
    requires Clean(answer) && con.input == [ACK] + Frame(answer)
    modifies con
    ensures rsp == Some(answer) && con.output == old(con.output) + Frame(cmd) + [ACK]
  {
    hide ReadReply, Frame;
    var acknowledged := con.SendPacket(cmd);
    if !acknowledged {
      return None;
    }
    assert con.input == Frame(answer) + [];
    ReadReplyFrame(answer, []);
    var reply := ReadPktReply(con);
    return Some(reply.data);
  }

  class Session {
    var regs: RegisterFile

    constructor ()
      ensures regs == Initial() && Sized(regs)
    {
      regs := Initial();
    }

    /**
     * The server reads a command, acts on it and answers. It has no setting for console output, so a packet
     * of that kind makes it fail.
     */
    method Serve(con: Connection) returns (outcome: Outcome)
      modifies this, con
      ensures var r := ReadPacket([], old(con.input));
              && (outcome, regs) == (if r.result.Packet? && !Console(r.result.data)
                                     then Process(old(regs), r.result.data) else (Fails, old(regs)))
              && con.output == old(con.output) + r.sent + (if outcome.Answer? then Frame(outcome.rsp) else [])
              && con.input == if outcome.Answer? then r.rest[|Take(r.rest, 1)|..] else r.rest
    {
      hide ReadPacket, Frame, Process;
      var pkt := con.ReadPkt();
      if pkt.NoStartOfFrame? || Console(pkt.data) {
        return Fails;
      }
      var (o, regs') := Process(regs, pkt.data);
      outcome, regs := o, regs';
      if outcome.Answer? {
        var _ := con.SendPacket(outcome.rsp);
      }
    }

    /**
     * The client sends `cmd`, the server reads it, acts on it and answers, the client reads the answer.
     * Each end is given exactly the octets the other end sends.
     */
    method Cmd(cmd: seq<byte>) returns (rsp: Option<seq<byte>>)
      requires Clean(cmd)
      requires Process(regs, cmd).0.Answer? ==> Clean(Process(regs, cmd).0.rsp)
      modifies this
      ensures regs == Process(old(regs), cmd).1
      ensures rsp == match Process(old(regs), cmd).0 case Answer(a) => Some(a) case _ => None
    {
      hide ReadPacket, ReadReply, Frame, Process;
      ReadFrame(cmd, [ACK]);
      var server := new Connection(Frame(cmd) + [ACK]);
      var outcome := Serve(server);
      if !outcome.Answer? {
        return None;
      }
      assert server.output == [ACK] + Frame(outcome.rsp) && server.input == [];
      var client := new Connection(server.output);
      rsp := Ask(client, cmd, outcome.rsp);
      assert client.output == Frame(cmd) + [ACK];
    }

    /** The value the server holds; registers that do not exist read as zero. */
    method GetReg(regnum: nat) returns (value: Option<nat>)
      requires Sized(regs)
      modifies this
      ensures regs == old(regs)
      ensures value == Some(ReadRegister(regs, regnum))
    {
      hide Process, ReadRegister, Sized, Swapped, Hex8, Hex, ParseHex;
      ServerReads(regs, regnum);
      ReadIsClean(regs, regnum);
      var rsp := Cmd(ReadCommand(regnum));
      var digits := Swap(rsp.value);
      value := ParseHex(digits);
    }

    /**
     * Writes what the server receives, reduced to the register's size, and changes nothing else; fails for
     * registers that do not exist.
     */
    method SetReg(regnum: nat, value: nat) returns (ok: bool)
      requires Sized(regs)
      modifies this
      ensures regs == WriteRegister(old(regs), regnum, Arrives(value)) && Sized(regs)
      ensures value < 0x1_0000_0000 ==> Arrives(value) == value
      ensures ok <==> regnum in old(regs)
    {
      hide Process, WriteRegister, Sized, Swapped, Hex8, Hex, Arrives;
      ServerWrites(regs, regnum, value);
      ArrivesIff(value);
      WriteIsClean(regnum, value);
      WriteKeepsSizes(regs, regnum, Arrives(value));
      var rsp := Cmd(WriteCommand(regnum, value));
      ok := rsp == Some(OK);
    }

    /** Any writes of 32-bit values, one after the other, and then a read of one register. */
    method WriteThenRead(writes: seq<Write>, regnum: nat) returns (value: Option<nat>)
      requires Sized(regs) && regnum in regs
      requires forall i :: 0 <= i < |writes| ==> writes[i].value < 0x1_0000_0000
      modifies this
      ensures value == Some(match LastWritten(writes, regnum)
                            case None => old(ReadRegister(regs, regnum))
                            case Some(v) => v % Pow2(old(regs)[regnum].bitsize))
    {
      hide WriteRegister, Sized, ReadRegister, Arrives, Pow2;
      ghost var before := regs;
      for i := 0 to |writes|
        invariant Sized(regs) && regs == WriteAll(before, writes[..i])
      {
        var _ := SetReg(writes[i].regnum, writes[i].value);
        assert writes[..i + 1][..i] == writes[..i];
      }
      assert writes[..|writes|] == writes;
      LastWriteWins(before, writes, regnum);
      value := GetReg(regnum);
    }
  }

  lemma HexIsPlain(s: seq<byte>)
    requires IsHex(s)
    ensures Plain(s)
  {
  }

  lemma ReadIsClean(regs: RegisterFile, regnum: nat)
    requires Sized(regs)
    ensures Clean(ReadCommand(regnum))
    ensures var a := Swapped(Hex8(ReadRegister(regs, regnum)));
            Clean(a) && ParseHex(Swapped(a)) == Some(ReadRegister(regs, regnum))
  {
    HexReadsBack(regnum);
    HexIsPlain(Hex(regnum));
    var v := ReadRegister(regs, regnum);
    WordSized(regs, regnum);
    Hex8ReadsBack(v);
    Hex8Length(v);
    SwapInvolution(Hex8(v));
    SwappedIsHex(Hex8(v));
    HexIsPlain(Swapped(Hex8(v)));
    hide Hex, Hex8, Digits, Swapped;
  }

  lemma WriteIsClean(regnum: nat, value: nat)
    ensures Clean(WriteCommand(regnum, value)) && Clean(OK) && Clean(E01)
  {
    HexReadsBack(regnum);
    Hex8ReadsBack(value);
    SwappedIsHex(Hex8(value));
    hide Hex, Hex8, Digits, Swapped;
    HexIsPlain(Hex(regnum));
    HexIsPlain(Swapped(Hex8(value)));
  }

  lemma WriteKeepsSizes(regs: RegisterFile, regnum: nat, value: nat)
    requires Sized(regs)
    ensures Sized(WriteRegister(regs, regnum, value))
  {
  }

  // ---- Any sequence of writes ----

  datatype Write = Write(regnum: nat, value: nat)

  function WriteAll(regs: RegisterFile, writes: seq<Write>): RegisterFile {
    if writes == [] then regs
    else
      var last := writes[|writes| - 1];
      WriteRegister(WriteAll(regs, writes[..|writes| - 1]), last.regnum, last.value)
  }

  /** The last value written to `regnum`, if any was. */
  function LastWritten(writes: seq<Write>, regnum: nat): Option<nat> {
    if writes == [] then None
    else if writes[|writes| - 1].regnum == regnum then Some(writes[|writes| - 1].value)
    else LastWritten(writes[..|writes| - 1], regnum)
  }

  /** A register reads as the last value written to it, reduced to its size, whatever else was written. */
  lemma {:induction false} LastWriteWins(regs: RegisterFile, writes: seq<Write>, regnum: nat)
    ensures var after := WriteAll(regs, writes);
            && after.Keys == regs.Keys
            && (regnum in regs ==>
                  && after[regnum].bitsize == regs[regnum].bitsize
                  && ReadRegister(after, regnum) ==
                     match LastWritten(writes, regnum)
                     case None => ReadRegister(regs, regnum)
                     case Some(v) => v % Pow2(regs[regnum].bitsize))
  {
    if writes != [] {
      LastWriteWins(regs, writes[..|writes| - 1], regnum);
      hide Pow2;
    }
  }
}
