/**
 * Responses: what holds in every run, with timeouts and without any discipline.
 */
module HioResponses {
  import opened Wrappers
  import opened HioProtocol

  predicate HoldsMutex(pc: Pc) {
    pc.Locked? || pc.Cleared? || pc.Waiting? || pc.Ready? || pc.Counted? || pc.Sent? || pc.Popping? || pc.Returning?
  }

  function Requests(up: seq<Up>): seq<nat> {
    if up == [] then [] else (if up[0].Req? then [up[0].trx] else []) + Requests(up[1..])
  }

  function Responses(down: seq<Down>): seq<nat> {
    if down == [] then [] else (if down[0].Rsp? then [down[0].trx] else []) + Responses(down[1..])
  }

  function InReader(r: Reader): seq<nat> {
    if r.RRsp? || r.RSleep? || r.RQueue? then [r.trx] else []
  }

  /** The holder's program counter, or `Idle` when the mutex is free. */
  function Holder(s: State): Pc {
    if s.host.mutex.Some? && s.host.mutex.value < |s.callers| then s.callers[s.host.mutex.value] else Idle
  }

  ghost predicate Exclusive(s: State) {
    && (s.host.mutex.Some? ==> s.host.mutex.value < |s.callers|)
    && forall i :: 0 <= i < |s.callers| ==> (HoldsMutex(s.callers[i]) <==> s.host.mutex == Some(i))
  }

  /** What is on its way from being written to being queued, in order. */
  function InFlight(r: Reader, dev: Device): seq<nat> {
    InReader(r) + Responses(dev.down) + (dev.todo + Requests(dev.up))
  }

  /** Every request is somewhere on its way, in order, and the books balance. */
  ghost predicate Accounted(s: State) {
    s.log.got + InFlight(s.reader, s.dev) == s.log.sent && Balanced(s)
  }

  ghost predicate Balanced(s: State) {
    var pc := Holder(s);
    && (forall i :: 0 <= i < |s.log.sent| ==> s.log.sent[i] == i % TRX)
    && s.host.trxid == |s.log.sent| % TRX
    && s.log.taken <= |s.log.got| && s.host.queue == s.log.got[s.log.taken..]
    && s.host.sem + (if pc.Popping? then 1 else 0) + (if s.reader.RPost? then 1 else 0) == |s.host.queue|
    && |s.log.sent| == s.log.taken + s.log.timeouts + (if pc.Sent? || pc.Popping? then 1 else 0)
    && (pc.Sent? || pc.Popping? ==> pc.trx == (|s.log.sent| - 1) % TRX)
  }

  lemma {:induction false} RequestsSnoc(up: seq<Up>, u: Up)
    ensures Requests(up + [u]) == Requests(up) + if u.Req? then [u.trx] else []
  {
    if up == [] {
      assert up + [u] == [u];
    } else {
      RequestsSnoc(up[1..], u);
      assert (up + [u])[1..] == up[1..] + [u];
    }
  }

  lemma {:induction false} ResponsesSnoc(down: seq<Down>, d: Down)
    ensures Responses(down + [d]) == Responses(down) + if d.Rsp? then [d.trx] else []
  {
    if down == [] {
      assert down + [d] == [d];
    } else {
      ResponsesSnoc(down[1..], d);
      assert (down + [d])[1..] == down[1..] + [d];
    }
  }

  ghost predicate Sound(s: State) {
    Exclusive(s) && Accounted(s)
  }

  /** Steps that leave the link, the reader, the queue and the history alone. */
  predicate Quiet(pc: Pc) {
    || pc.Begin? || pc.Locked? || pc.Cleared? || pc.Waiting? || pc.Ready?
    || pc == SetFlag || pc == DisTest || pc == DisCleared || pc == DisWaiting || pc == DisFlag
  }

  lemma QuietEffect(s: State, t: nat, pc: Pc)
    requires Quiet(pc)
    ensures var e := Effect(s, t, pc); e.dev == s.dev && e.log == s.log && e.reader == s.reader
    ensures var e := Effect(s, t, pc).host; e.sem == s.host.sem && e.queue == s.host.queue && e.trxid == s.host.trxid
    ensures Effect(s, t, pc).host.mutex == if pc.Begin? then Some(t) else s.host.mutex
  {
  }

  lemma QuietSuccessor(s: State, pc: Pc)
    requires Quiet(pc)
    ensures var q := Successor(s, pc); !q.Sent? && !q.Popping? && (HoldsMutex(q) <==> pc.Begin? || HoldsMutex(pc))
  {
  }

  lemma SoundQuiet(s: State, t: nat)
    requires Sound(s) && t < |s.callers| && Quiet(s.callers[t]) && CallerEnabled(s, s.callers[t])
    ensures Sound(CallerStep(s, t))
  {
    QuietEffect(s, t, s.callers[t]);
    QuietSuccessor(s, s.callers[t]);
    hide Effect, Successor;
  }

  // What each step does to the messages in flight.

  lemma FlowWrites(r: Reader, dev: Device, u: Up)
    ensures InFlight(r, dev.(up := dev.up + [u])) == InFlight(r, dev) + if u.Req? then [u.trx] else []
  {
    RequestsSnoc(dev.up, u);
    hide Requests, Responses, InReader;
    var a, b, c, d := InReader(r) + Responses(dev.down), dev.todo, Requests(dev.up), if u.Req? then [u.trx] else [];
    assert a + (b + (c + d)) == a + (b + c) + d;
  }

  lemma FlowTakes(r: Reader, dev: Device)
    requires dev.up != []
    ensures var d := dev.(up := dev.up[1..]);
            InFlight(r, dev) == InFlight(r, match dev.up[0] case Req(x) => d.(todo := d.todo + [x]) case Sleep => d)
  {
    var b, c := dev.todo, Requests(dev.up[1..]);
    if dev.up[0].Req? {
      var x := dev.up[0].trx;
      assert Requests(dev.up) == [x] + c;
      hide Requests, Responses, InReader;
      assert b + ([x] + c) == (b + [x]) + c;
    } else {
      assert Requests(dev.up) == [] + c == c;
    }
  }

  lemma FlowAnswers(r: Reader, dev: Device)
    requires dev.todo != []
    ensures InFlight(r, dev) == InFlight(r, dev.(todo := dev.todo[1..], down := dev.down + [Rsp(dev.todo[0])]))
  {
    var x := dev.todo[0];
    ResponsesSnoc(dev.down, Rsp(x));
    hide Requests, Responses, InReader;
    var a, b, c := InReader(r), Responses(dev.down), Requests(dev.up);
    assert dev.todo == [x] + dev.todo[1..];
    assert a + b + (([x] + dev.todo[1..]) + c) == a + (b + [x]) + (dev.todo[1..] + c);
  }

  lemma FlowIndicates(r: Reader, dev: Device, d: Down, dozing: bool)
    requires !d.Rsp?
    ensures InFlight(r, dev) == InFlight(r, dev.(dozing := dozing, down := dev.down + [d]))
  {
    ResponsesSnoc(dev.down, d);
    hide Requests, Responses, InReader;
    assert Responses(dev.down) + [] == Responses(dev.down);
  }

  lemma FlowReads(dev: Device)
    requires dev.down != []
    ensures var d := dev.(down := dev.down[1..]);
            InFlight(RIdle, dev) ==
            match dev.down[0]
            case Rsp(x) => InFlight(RRsp(x), d)
            case Wakeup => InFlight(RWake, d)
            case Other => InFlight(RIdle, d)
  {
    var b, c := Responses(dev.down[1..]), dev.todo + Requests(dev.up);
    if dev.down[0].Rsp? {
      var x := dev.down[0].trx;
      assert Responses(dev.down) == [x] + b;
      hide Responses, Requests;
      assert [] + ([x] + b) + c == [x] + b + c;
    } else {
      assert Responses(dev.down) == [] + b == b;
    }
  }

  /** A step that keeps the books and what is in flight. */
  lemma SoundMoved(s: State, s': State)
    requires Sound(s) && Exclusive(s') && Holder(s') == Holder(s) && s'.host == s.host
    requires s'.log == s.log.(awakened := s'.log.awakened) && s'.reader.RPost? == s.reader.RPost?
    requires InFlight(s'.reader, s'.dev) == InFlight(s.reader, s.dev)
    ensures Sound(s')
  {
    hide InFlight, Exclusive, Holder;
  }

  lemma SoundCounted(s: State, t: nat)
    requires Sound(s) && t < |s.callers| && s.callers[t].Counted? && CallerEnabled(s, s.callers[t])
    ensures Sound(CallerStep(s, t))
  {
    var f := InFlight(s.reader, s.dev);
    FlowWrites(s.reader, s.dev, Req(s.host.trxid));
    assert s.log.got + (f + [s.host.trxid]) == (s.log.got + f) + [s.host.trxid];
    hide InFlight;
  }

  lemma SoundSent(s: State, t: nat)
    requires Sound(s) && t < |s.callers| && s.callers[t].Sent? && CallerEnabled(s, s.callers[t])
    ensures Sound(CallerStep(s, t))
  {
  }

  lemma SoundPopping(s: State, t: nat)
    requires Sound(s) && t < |s.callers| && s.callers[t].Popping? && CallerEnabled(s, s.callers[t])
    ensures Sound(CallerStep(s, t))
  {
  }

  lemma SoundReturning(s: State, t: nat)
    requires Sound(s) && t < |s.callers| && s.callers[t].Returning? && CallerEnabled(s, s.callers[t])
    ensures Sound(CallerStep(s, t))
  {
  }

  lemma SoundFirstSleep(s: State, t: nat)
    requires Sound(s) && t < |s.callers| && s.callers[t].FirstSleep? && CallerEnabled(s, s.callers[t])
    ensures Sound(CallerStep(s, t))
  {
    FlowWrites(s.reader, s.dev, Sleep);
    assert InFlight(s.reader, s.dev) + [] == InFlight(s.reader, s.dev);
    hide InFlight, Accounted;
    SoundMoved(s, CallerStep(s, t));
  }

  lemma SoundRIdle(s: State)
    requires Sound(s) && s.reader.RIdle? && s.dev.down != []
    ensures Sound(ReaderStep(s))
  {
    FlowReads(s.dev);
    hide InFlight, Accounted;
    SoundMoved(s, ReaderStep(s));
  }

  lemma SoundRSleep(s: State)
    requires Sound(s) && s.reader.RSleep?
    ensures Sound(ReaderStep(s))
  {
    var r := RQueue(s.reader.trx);
    FlowWrites(r, s.dev, Sleep);
    assert InFlight(r, s.dev) == InFlight(s.reader, s.dev) && InFlight(r, s.dev) + [] == InFlight(r, s.dev);
    hide InFlight, Accounted;
    SoundMoved(s, ReaderStep(s));
  }

  lemma SoundRQueue(s: State)
    requires Sound(s) && s.reader.RQueue?
    ensures Sound(ReaderStep(s))
  {
    var x, got := s.reader.trx, s.log.got;
    var rest := Responses(s.dev.down) + (s.dev.todo + Requests(s.dev.up));
    assert InFlight(s.reader, s.dev) == [x] + rest;
    assert InFlight(RPost, s.dev) == rest;
    hide InFlight, Requests, Responses;
    assert got + ([x] + rest) == (got + [x]) + rest;
  }

  lemma SoundTake(s: State)
    requires Sound(s) && s.dev.up != []
    ensures Sound(TakeStep(s))
  {
    FlowTakes(s.reader, s.dev);
    hide InFlight, Accounted;
    SoundMoved(s, TakeStep(s));
  }

  lemma SoundAnswer(s: State)
    requires Sound(s) && s.dev.todo != []
    ensures Sound(Next(s, Answer))
  {
    FlowAnswers(s.reader, s.dev);
    hide InFlight, Accounted;
    SoundMoved(s, Next(s, Answer));
  }

  lemma SoundIndication(s: State, d: Down, dozing: bool)
    requires Sound(s) && !d.Rsp?
    ensures Sound(s.(dev := s.dev.(dozing := dozing, down := s.dev.down + [d])))
  {
    FlowIndicates(s.reader, s.dev, d, dozing);
    hide InFlight, Accounted;
    SoundMoved(s, s.(dev := s.dev.(dozing := dozing, down := s.dev.down + [d])));
  }

  lemma SoundStart(s: State, t: nat, job: Job)
    requires Sound(s) && Enabled(s, Start(t, job))
    ensures Sound(Next(s, Start(t, job)))
  {
    assert Holder(Next(s, Start(t, job))) == Holder(s);
  }

  lemma SoundTimeout(s: State, t: nat)
    requires Sound(s) && Enabled(s, Timeout(t))
    ensures Sound(Next(s, Timeout(t)))
  {
  }

  lemma SoundRun(s: State, t: nat)
    requires Sound(s) && Enabled(s, Run(t))
    ensures Sound(CallerStep(s, t))
  {
    hide CallerStep, Sound;
    match s.callers[t]
    case Counted(_) => SoundCounted(s, t);
    case Sent(_, _) => SoundSent(s, t);
    case Popping(_, _) => SoundPopping(s, t);
    case Returning(_, _, _) => SoundReturning(s, t);
    case FirstSleep => SoundFirstSleep(s, t);
    case _ => SoundQuiet(s, t);
  }

  lemma SoundCounters(s: State)
    requires Sound(s) && (s.reader.RWake? || s.reader.RRsp? || s.reader.RPost?)
    ensures Sound(ReaderStep(s))
  {
  }

  lemma SoundRead(s: State)
    requires Sound(s) && Enabled(s, Read)
    ensures Sound(ReaderStep(s))
  {
    hide ReaderStep, Sound;
    match s.reader
    case RIdle => SoundRIdle(s);
    case RSleep(_) => SoundRSleep(s);
    case RQueue(_) => SoundRQueue(s);
    case _ => SoundCounters(s);
  }

  /** Every step of every thread and of the device keeps the books. */
  lemma SoundNext(s: State, a: Action)
    requires Sound(s) && Enabled(s, a)
    ensures Sound(Next(s, a))
  {
    hide CallerStep, ReaderStep, TakeStep, Sound, CallerEnabled;
    match a
    case Start(t, job) => SoundStart(s, t, job);
    case Run(t) => SoundRun(s, t);
    case Timeout(t) => SoundTimeout(s, t);
    case Read => SoundRead(s);
    case Take => SoundTake(s);
    case Answer => SoundAnswer(s);
    case Wake => SoundIndication(s, Wakeup, false);
    case Chatter => SoundIndication(s, Other, s.dev.dozing);
  }

  lemma {:induction false} SoundRuns(n: nat, acts: seq<Action>, s: State)
    requires Exec(Init(n), acts) == Some(s)
    ensures Sound(s)
  {
    if acts != [] {
      var prev := Exec(Init(n), acts[..|acts| - 1]).value;
      SoundRuns(n, acts[..|acts| - 1], prev);
      hide Sound, Next;
      SoundNext(prev, acts[|acts| - 1]);
    }
  }

  /**
   * In every interleaving of any number of callers, with any number of timeouts: a thread that has
   * acquired the semaphore finds a response on the queue, and the k-th such thread gets the k-th response.
   * That answers the thread's own request, the last one written, exactly when no wait has ever timed out;
   * it carries the thread's transaction number exactly when the number of timeouts is a multiple of 2^16.
   */
  lemma WaitGetsNextResponse(n: nat, acts: seq<Action>, s: State, t: nat)
    requires Exec(Init(n), acts) == Some(s) && t < |s.callers| && s.callers[t].Popping?
    ensures s.host.queue != []
    ensures s.log.taken < |s.log.got| && s.host.queue[0] == s.log.got[s.log.taken] == s.log.taken % 65536
    ensures s.log.taken == |s.log.sent| - 1 <==> s.log.timeouts == 0
    ensures s.host.queue[0] == s.callers[t].trx <==> s.log.timeouts % 65536 == 0
  {
    SoundRuns(n, acts, s);
    assert Holder(s) == s.callers[t];
    var k := s.log.taken;
    assert s.log.got[k] == s.log.sent[k];
    SameResidue(k, s.log.timeouts);
  }

  lemma SameResidue(k: nat, d: nat)
    ensures k % TRX == (k + d) % TRX <==> d % TRX == 0
  {
  }
}
