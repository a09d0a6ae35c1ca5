/**
 * Which streams verify mode accepts from every device that does what it is told: those in which the READ whose
 * answer is compared with a RAM write finds the data of that write, whatever the memory held before.
 */
module BootVerify {
  import opened Bytes
  import opened Thumb
  import opened Wrappers
  import opened BootCommand

  /** A READ and the commands that the device has received before it. */
  datatype Reading = Reading(before: seq<Command>, cmd: Command)

  function Readings(cs: seq<Command>): seq<Reading> {
    if cs == [] then []
    else
      var init, c := cs[..|cs| - 1], cs[|cs| - 1];
      Readings(init) + if c.op == 1 then [Reading(init, c)] else []
  }

  /** The octet that the last write to `x` left there. */
  function LastWritten(cs: seq<Command>, x: int): Option<byte> {
    if cs == [] then None
    else
      var c := cs[|cs| - 1];
      if c.op == 2 && c.addr <= x < c.addr + |c.data| then Some(c.data[x - c.addr]) else LastWritten(cs[..|cs| - 1], x)
  }

  /** A device answers `r` with `data` whatever its memory held before the first command. */
  ghost predicate Yields(r: Reading, data: seq<byte>) {
    && r.cmd.length == |data|
    && forall j :: 0 <= j < |data| ==> LastWritten(r.before, r.cmd.addr + j) == Some(data[j])
  }

  /** The n-th READ that is sent, whether inserted or of the stream itself, finds the data of the n-th RAM write. */
  ghost predicate InStep(cs: seq<Command>) {
    forall i :: 0 <= i < |cs| && ReadBack(cs[i]) ==> Paired(cs, i)
  }

  ghost predicate Paired(cs: seq<Command>, i: nat)
    requires i < |cs|
  {
    var k, rs := CountReads(cs[..i]), Readings(WithReads(cs));
    k < |rs| && Yields(rs[k], cs[i].data)
  }

  // ---- What the device answers ----

  lemma {:induction false} MemoryIs(m: Mem, cs: seq<Command>, x: int)
    ensures ExecuteAll(m, cs)(x) == match LastWritten(cs, x) case Some(b) => b case None => m(x)
  {
    if cs != [] {
      MemoryIs(m, cs[..|cs| - 1], x);
    }
  }

  /** The answers are those of the readings, in order. */
  lemma {:induction false} AnswersAre(m: Mem, cs: seq<Command>)
    ensures |Answers(m, cs)| == |Readings(cs)|
    ensures forall k :: 0 <= k < |Readings(cs)| ==> Answers(m, cs)[k] == Answer(m, Readings(cs)[k])
  {
    if cs != [] {
      AnswersAre(m, cs[..|cs| - 1]);
      hide Fetch, ExecuteAll;
    }
  }

  function Answer(m: Mem, r: Reading): seq<byte> {
    Fetch(ExecuteAll(m, r.before), r.cmd.addr, r.cmd.length)
  }

  lemma YieldsAlways(m: Mem, r: Reading, data: seq<byte>)
    requires Yields(r, data)
    ensures Answer(m, r) == data
  {
    forall j | 0 <= j < |data| ensures Answer(m, r)[j] == data[j] {
      MemoryIs(m, r.before, r.cmd.addr + j);
    }
  }

  /** If the data need not be found, some memory does not have it. */
  lemma YieldsOnly(r: Reading, data: seq<byte>) returns (m: Mem)
    requires !Yields(r, data)
    ensures Answer(m, r) != data
  {
    m := _ => 0;
    if r.cmd.length == |data| {
      var j :| 0 <= j < |data| && LastWritten(r.before, r.cmd.addr + j) != Some(data[j]);
      m := _ => if data[j] == 0 then 1 else 0;
      MemoryIs(m, r.before, r.cmd.addr + j);
      assert Answer(m, r)[j] != data[j];
    }
  }

  // ---- How many READ commands there are ----

  lemma ReadingsSnoc(cs: seq<Command>, c: Command)
    ensures Readings(cs + [c]) == Readings(cs) + if c.op == 1 then [Reading(cs, c)] else []
  {
    assert (cs + [c])[..|cs|] == cs;
  }

  lemma {:induction false} EnoughReadings(cs: seq<Command>)
    ensures |Readings(WithReads(cs))| >= CountReads(cs)
  {
    if cs != [] {
      var init, c := cs[..|cs| - 1], cs[|cs| - 1];
      var w := WithReads(init);
      EnoughReadings(init);
      ReadingsSnoc(w, c);
      ReadingsSnoc(w + [c], ReadOf(c));
      hide Readings;
      assert w + [c] + [] == w + [c];
    }
  }

  lemma {:induction false} CountGrows(cs: seq<Command>, i: nat)
    requires i < |cs| && ReadBack(cs[i])
    ensures CountReads(cs[..i]) < CountReads(cs)
    decreases |cs|
  {
    var init := cs[..|cs| - 1];
    if i < |init| {
      CountGrows(init, i);
      assert init[..i] == cs[..i];
    }
  }

  // ---- The exact condition ----

  ghost predicate AlwaysConfirmed(cs: seq<Command>) {
    forall m: Mem, replies: nat -> seq<byte> :: Honest(m, cs, replies) ==> Confirmed(cs, replies)
  }

  lemma AcceptedIff(cs: seq<Command>)
    ensures AlwaysConfirmed(cs) <==> InStep(cs)
  {
    hide Honest, Confirmed, InStep;
    if InStep(cs) {
      forall m: Mem, replies: nat -> seq<byte> | Honest(m, cs, replies) ensures Confirmed(cs, replies) {
        InStepConfirms(m, cs, replies);
      }
    } else {
      OutOfStep(cs);
    }
  }

  lemma InStepConfirms(m: Mem, cs: seq<Command>, replies: nat -> seq<byte>)
    requires InStep(cs) && Honest(m, cs, replies)
    ensures Confirmed(cs, replies)
  {
    hide Answers, WithReads, CountReads, Readings, Yields, Answer;
    var rs := Readings(WithReads(cs));
    AnswersAre(m, WithReads(cs));
    forall i | 0 <= i < |cs| && ReadBack(cs[i]) ensures replies(CountReads(cs[..i])) == cs[i].data {
      assert Paired(cs, i);
      YieldsAlways(m, rs[CountReads(cs[..i])], cs[i].data);
    }
  }

  lemma OutOfStep(cs: seq<Command>)
    requires !InStep(cs)
    ensures exists m: Mem, replies: nat -> seq<byte> :: Honest(m, cs, replies) && !Confirmed(cs, replies)
  {
    hide Answers, WithReads, CountReads, Readings, Yields, Answer, ReadBack;
    var i :| 0 <= i < |cs| && ReadBack(cs[i]) && !Paired(cs, i);
    var k, rs := CountReads(cs[..i]), Readings(WithReads(cs));
    EnoughReadings(cs);
    CountGrows(cs, i);
    var m := YieldsOnly(rs[k], cs[i].data);
    AnswersAre(m, WithReads(cs));
    var all := Answers(m, WithReads(cs));
    var replies: nat -> seq<byte> := (n: nat) => if n < |all| then all[n] else [];
    assert Honest(m, cs, replies);
    assert replies(k) != cs[i].data;
  }

  /** Streams without a READ before a RAM write are in step. */
  lemma ReadsLastInStep(cs: seq<Command>)
    requires forall i :: 0 <= i < |cs| ==> cs[i].Valid()
    requires ReadsLast(cs)
    ensures InStep(cs)
  {
    hide Honest, Confirmed, InStep, ReadsLast;
    AcceptedIff(cs);
    forall m: Mem, replies: nat -> seq<byte> | Honest(m, cs, replies) ensures Confirmed(cs, replies) {
      HonestDeviceConfirms(m, cs, replies);
    }
  }
}
