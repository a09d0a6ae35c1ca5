/**
 * Sleep: with suspend enabled, one token goes round between the host and the device.
 */
module HioSleep {
  import opened Wrappers
  import opened HioProtocol
  import opened HioResponses

  function Sleeps(up: seq<Up>): nat {
    if up == [] then 0 else (if up[0].Sleep? then 1 else 0) + Sleeps(up[1..])
  }

  function Wakeups(down: seq<Down>): nat {
    if down == [] then 0 else (if down[0].Wakeup? then 1 else 0) + Wakeups(down[1..])
  }

  function Bit(b: bool): nat {
    if b then 1 else 0
  }

  /** Requests written whose response the reader has not handled. */
  function Outstanding(s: State): nat {
    |Requests(s.dev.up)| + |s.dev.todo| + |Responses(s.dev.down)| + Bit(s.reader.RRsp?)
  }

  /** Leave to doze, given or on its way. */
  function Naps(s: State): nat {
    Sleeps(s.dev.up) + Bit(s.dev.dozing)
  }

  /** Wakeup indications on their way. */
  function Calls(s: State): nat {
    Wakeups(s.dev.down) + Bit(s.reader.RWake?)
  }

  predicate Clearing(pc: Pc) { pc.Cleared? || pc.DisCleared? }
  predicate Waits(pc: Pc) { pc.Waiting? || pc.DisWaiting? }
  predicate Woken(pc: Pc) { pc.Ready? || pc.Counted? || pc.DisFlag? }

  /**
   * With suspend enabled exactly one of these exists at any time: leave to doze, a wakeup indication, a
   * woken caller that has not yet written its request, an outstanding request, or a reader about to
   * give leave again. `pc` is the one thread that is past `Begin`.
   */
  ghost predicate Token(s: State, pc: Pc) {
    var h := s.host;
    && h.pending == Outstanding(s) + Bit(pc.Counted?)
    && (h.brk <==> Waits(pc))
    && (Clearing(pc) ==> !h.event)
    && (h.suspend && Woken(pc) ==> s.log.awakened)
    && (h.event && Waits(pc) ==> s.log.awakened)
    && (Calls(s) > 0 ==> Waits(pc))
    && (if !h.suspend then Naps(s) == 0 && Calls(s) == 0 && !Clearing(pc) && !Waits(pc) && pc != FirstSleep
        else if pc == FirstSleep then Naps(s) + Outstanding(s) + Bit(s.reader.RSleep?) + Calls(s) == 0
        else Naps(s) + Outstanding(s) + Bit(s.reader.RSleep?) + Calls(s) + Bit(Woken(pc)) + Bit(h.event && Waits(pc)) == 1)
  }

  lemma {:induction false} SleepsSnoc(up: seq<Up>, u: Up)
    ensures Sleeps(up + [u]) == Sleeps(up) + Bit(u.Sleep?)
  {
    if up == [] {
      assert up + [u] == [u];
    } else {
      SleepsSnoc(up[1..], u);
      assert (up + [u])[1..] == up[1..] + [u];
    }
  }

  lemma {:induction false} WakeupsSnoc(down: seq<Down>, d: Down)
    ensures Wakeups(down + [d]) == Wakeups(down) + Bit(d.Wakeup?)
  {
    if down == [] {
      assert down + [d] == [d];
    } else {
      WakeupsSnoc(down[1..], d);
      assert (down + [d])[1..] == down[1..] + [d];
    }
  }

  /** Steps that only move the token between the flags of one thread, or not at all. */
  predicate Silent(pc: Pc) {
    || pc.Locked? || pc.Cleared? || pc.Waiting? || pc.Ready? || pc.Sent? || pc.Returning?
    || pc == DisTest || pc == DisCleared || pc == DisWaiting
  }

  lemma TokenSilent(s: State, t: nat)
    requires t < |s.callers| && Silent(s.callers[t]) && CallerEnabled(s, s.callers[t]) && Token(s, s.callers[t])
    ensures Token(CallerStep(s, t), CallerStep(s, t).callers[t])
  {
    hide Outstanding, Naps, Calls;
    SilentCounts(s, t);
  }

  lemma SilentCounts(s: State, t: nat)
    requires t < |s.callers| && Silent(s.callers[t]) && CallerEnabled(s, s.callers[t])
    ensures SameCounts(s, CallerStep(s, t))
  {
    hide Requests, Responses, Sleeps, Wakeups;
  }

  predicate SameCounts(s: State, s': State) {
    && s'.dev == s.dev && s'.reader == s.reader && s'.log == s.log
    && Outstanding(s') == Outstanding(s) && Naps(s') == Naps(s) && Calls(s') == Calls(s)
  }

  lemma TokenBegin(s: State, t: nat)
    requires t < |s.callers| && s.callers[t].Begin? && CallerEnabled(s, s.callers[t]) && Token(s, Idle)
    ensures Token(CallerStep(s, t), CallerStep(s, t).callers[t])
  {
  }

  lemma TokenCounted(s: State, t: nat)
    requires t < |s.callers| && s.callers[t].Counted? && CallerEnabled(s, s.callers[t]) && Token(s, s.callers[t])
    ensures Token(CallerStep(s, t), CallerStep(s, t).callers[t])
  {
    RequestsSnoc(s.dev.up, Req(s.host.trxid));
    SleepsSnoc(s.dev.up, Req(s.host.trxid));
  }

  lemma TokenPopping(s: State, t: nat)
    requires t < |s.callers| && s.callers[t].Popping? && CallerEnabled(s, s.callers[t]) && Token(s, s.callers[t])
    ensures Token(CallerStep(s, t), CallerStep(s, t).callers[t])
  {
  }

  lemma TokenFirstSleep(s: State, t: nat)
    requires t < |s.callers| && s.callers[t].FirstSleep? && CallerEnabled(s, s.callers[t]) && Token(s, s.callers[t])
    ensures Token(CallerStep(s, t), Idle)
  {
    RequestsSnoc(s.dev.up, Sleep);
    SleepsSnoc(s.dev.up, Sleep);
  }

  lemma TokenRIdle(s: State, pc: Pc)
    requires s.reader.RIdle? && Token(s, pc)
    ensures Token(ReaderStep(s), pc)
  {
    hide ReaderStep, Outstanding, Naps, Calls;
    RIdleCounts(s);
  }

  lemma RIdleCounts(s: State)
    requires s.reader.RIdle?
    ensures var s' := ReaderStep(s);
            && s'.host == s.host && s'.log == s.log && !s'.reader.RSleep?
            && Outstanding(s') == Outstanding(s) && Naps(s') == Naps(s) && Calls(s') == Calls(s)
  {
    hide Requests, Sleeps;
  }

  lemma TokenRSleep(s: State, pc: Pc)
    requires s.reader.RSleep? && Token(s, pc)
    ensures Token(ReaderStep(s), pc)
  {
    RequestsSnoc(s.dev.up, Sleep);
    SleepsSnoc(s.dev.up, Sleep);
  }

  lemma TokenTake(s: State, pc: Pc)
    requires s.dev.up != [] && Token(s, pc)
    ensures Token(TakeStep(s), pc)
  {
  }

  lemma TokenAnswer(s: State, pc: Pc)
    requires s.dev.todo != [] && Token(s, pc)
    ensures Token(Next(s, Answer), pc)
  {
    hide Outstanding, Naps, Calls, Next;
    AnswerCounts(s);
  }

  lemma AnswerCounts(s: State)
    requires s.dev.todo != []
    ensures var s' := Next(s, Answer);
            && s'.host == s.host && s'.log == s.log && s'.reader == s.reader
            && Outstanding(s') == Outstanding(s) && Naps(s') == Naps(s) && Calls(s') == Calls(s)
  {
    ResponsesSnoc(s.dev.down, Rsp(s.dev.todo[0]));
    WakeupsSnoc(s.dev.down, Rsp(s.dev.todo[0]));
    hide Responses, Wakeups, Requests, Sleeps;
  }

  lemma TokenWake(s: State, pc: Pc)
    requires s.dev.dozing && s.host.brk && Token(s, pc)
    ensures Token(Next(s, Wake), pc)
  {
    ResponsesSnoc(s.dev.down, Wakeup);
    WakeupsSnoc(s.dev.down, Wakeup);
  }

  lemma TokenChatter(s: State, pc: Pc)
    requires Token(s, pc)
    ensures Token(Next(s, Chatter), pc)
  {
    hide Outstanding, Naps, Calls, Next;
    ChatterCounts(s);
  }

  lemma ChatterCounts(s: State)
    ensures var s' := Next(s, Chatter);
            && s'.host == s.host && s'.log == s.log && s'.reader == s.reader
            && Outstanding(s') == Outstanding(s) && Naps(s') == Naps(s) && Calls(s') == Calls(s)
  {
    ResponsesSnoc(s.dev.down, Other);
    WakeupsSnoc(s.dev.down, Other);
    hide Responses, Wakeups, Requests, Sleeps;
  }

  lemma TokenHandled(s: State, pc: Pc)
    requires (s.reader.RWake? || s.reader.RRsp? || s.reader.RQueue? || s.reader.RPost?) && Token(s, pc)
    ensures Token(ReaderStep(s), pc)
  {
  }

  predicate Enabling(pc: Pc) {
    pc == SetFlag || pc == FirstSleep || (pc.Begin? && pc.job == Enable) || (HoldsMutex(pc) && pc.job == Enable)
  }

  /** Within enable_suspend. */
  predicate Admin(pc: Pc) {
    || Enabling(pc) || pc == DisTest || pc == DisCleared || pc == DisWaiting || pc == DisFlag
    || (pc.Begin? && pc.job == Disable) || (HoldsMutex(pc) && pc.job == Disable)
  }

  /**
   * What callers must respect: enable_suspend runs while no other thread is in a call; and it enables
   * only what is disabled, and only if no call has ever timed out.
   */
  predicate Polite(s: State, a: Action) {
    match a
    case Start(t, Plain) => forall i :: 0 <= i < |s.callers| ==> !Admin(s.callers[i])
    case Start(t, Disable) => forall i :: 0 <= i < |s.callers| ==> s.callers[i] == Idle
    case Start(t, Enable) =>
      (forall i :: 0 <= i < |s.callers| ==> s.callers[i] == Idle) && !s.host.suspend && s.log.timeouts == 0
    case _ => true
  }

  ghost predicate AllPolite(s: State, acts: seq<Action>) {
    forall k :: 0 <= k < |acts| && Exec(s, acts[..k]).Some? ==> Polite(Exec(s, acts[..k]).value, acts[k])
  }

  predicate Passive(pc: Pc) {
    pc.Idle? || pc.Begin?
  }

  function PcOf(s: State, h: int): Pc {
    if 0 <= h < |s.callers| then s.callers[h] else Idle
  }

  /** Thread `h` is the only one past `Begin` (none when `h` is -1), and the discipline has been kept. */
  ghost predicate Shape(s: State, h: int) {
    && -1 <= h < |s.callers|
    && (forall i :: 0 <= i < |s.callers| ==> (Passive(s.callers[i]) <==> i != h))
    && (forall i, j :: 0 <= i < |s.callers| && 0 <= j < |s.callers| && i != j && Admin(s.callers[i]) ==>
          s.callers[j] == Idle)
    && (forall i :: 0 <= i < |s.callers| && Enabling(s.callers[i]) ==>
          s.log.timeouts == 0 && (s.callers[i] != FirstSleep ==> !s.host.suspend))
  }

  ghost predicate Orderly(s: State, h: int) {
    Shape(s, h) && Token(s, PcOf(s, h))
  }

  /** When the config call of enable_suspend(True) has returned and nothing ever timed out, nothing is in flight. */
  lemma Settled(s: State)
    requires Sound(s) && s.log.timeouts == 0 && !Holder(s).Sent? && !Holder(s).Popping?
    ensures Outstanding(s) == 0 && !s.reader.RSleep?
  {
  }

  lemma TokenCaller(s: State, t: nat)
    requires t < |s.callers| && CallerEnabled(s, s.callers[t]) && !s.callers[t].Begin? && Token(s, s.callers[t])
    requires s.callers[t] == SetFlag ==> !s.host.suspend && Outstanding(s) == 0 && !s.reader.RSleep?
    ensures var pc := CallerStep(s, t).callers[t]; Token(CallerStep(s, t), if pc.Begin? then Idle else pc)
  {
    hide Outstanding, Naps, Calls;
    match s.callers[t]
    case Counted(_) => TokenCounted(s, t);
    case FirstSleep => TokenFirstSleep(s, t);
    case Popping(_, _) => TokenPopping(s, t);
    case SetFlag => FlagCounts(s, t);
    case DisFlag => FlagCounts(s, t);
    case _ => TokenSilent(s, t);
  }

  lemma FlagCounts(s: State, t: nat)
    requires t < |s.callers| && (s.callers[t] == SetFlag || s.callers[t] == DisFlag)
    ensures SameCounts(s, CallerStep(s, t))
  {
    hide Requests, Responses, Sleeps, Wakeups;
  }

  lemma EffectKeepsTimeouts(s: State, t: nat, pc: Pc)
    ensures Effect(s, t, pc).log.timeouts == s.log.timeouts
  {
  }

  lemma SuccessorKinds(s: State, pc: Pc)
    requires pc != Idle
    ensures Admin(Successor(s, pc)) ==> Admin(pc)
    ensures Enabling(Successor(s, pc)) ==> Enabling(pc)
    ensures Passive(Successor(s, pc)) <==> (pc.Returning? && pc.job != Enable) || pc == FirstSleep || pc == DisFlag
  {
  }

  lemma SuspendFlag(s: State, t: nat, pc: Pc)
    ensures Effect(s, t, pc).host.suspend == if pc == SetFlag then true else if pc == DisFlag then false else s.host.suspend
  {
  }

  lemma ActiveKinds(pc: Pc)
    ensures Passive(pc) || HoldsMutex(pc) || Admin(pc)
  {
  }

  lemma ShapeRun(s: State, t: nat, h: int)
    requires Exclusive(s) && Shape(s, h) && Enabled(s, Run(t))
    ensures s.callers[t].Begin? ==> h == -1 && Shape(CallerStep(s, t), t)
    ensures !s.callers[t].Begin? ==> h == t && Shape(CallerStep(s, t), if Passive(Successor(s, s.callers[t])) then -1 else h)
  {
    var pc := s.callers[t];
    SuccessorKinds(s, pc);
    SuspendFlag(s, t, pc);
    EffectKeepsTimeouts(s, t, pc);
    ActiveKinds(PcOf(s, h));
    hide Effect, Successor, Admin, Enabling;
  }

  lemma OrderlyRun(s: State, t: nat, h: int) returns (h': int)
    requires Sound(s) && Orderly(s, h) && Enabled(s, Run(t))
    ensures Orderly(CallerStep(s, t), h')
  {
    ShapeRun(s, t, h);
    var pc := s.callers[t];
    if pc.Begin? {
      h' := t;
      hide Shape, Token, Effect;
      TokenBegin(s, t);
    } else {
      h' := if Passive(Successor(s, pc)) then -1 else h;
      if pc == SetFlag {
        NobodyHolds(s, t);
        Settled(s);
      }
      hide Shape, Token, Effect, Sound, CallerEnabled;
      TokenCaller(s, t);
      TokenPassive(CallerStep(s, t));
    }
  }

  lemma TokenPassive(s: State)
    ensures forall job :: Token(s, Begin(job)) <==> Token(s, Idle)
  {
  }

  lemma NobodyHolds(s: State, t: nat)
    requires Exclusive(s) && t < |s.callers| && s.callers[t] == SetFlag
    requires forall i :: 0 <= i < |s.callers| && i != t ==> s.callers[i] == Idle
    ensures Holder(s) == Idle
  {
  }

  lemma OrderlyRead(s: State, h: int)
    requires Orderly(s, h) && Enabled(s, Read)
    ensures Orderly(ReaderStep(s), h)
  {
    ReaderFrame(s);
    hide ReaderStep, Token, Shape;
    ShapeSame(s, ReaderStep(s), h);
    var pc := PcOf(s, h);
    match s.reader
    case RIdle => TokenRIdle(s, pc);
    case RSleep(_) => TokenRSleep(s, pc);
    case _ => TokenHandled(s, pc);
  }

  lemma ShapeSame(s: State, s': State, h: int)
    requires Shape(s, h) && s'.callers == s.callers && s'.log.timeouts == s.log.timeouts && s'.host.suspend == s.host.suspend
    ensures Shape(s', h)
  {
  }

  lemma ReaderFrame(s: State)
    ensures ReaderStep(s).callers == s.callers && ReaderStep(s).log.timeouts == s.log.timeouts
    ensures ReaderStep(s).host.suspend == s.host.suspend
  {
  }

  lemma OrderlyStart(s: State, t: nat, job: Job, h: int) returns (h': int)
    requires Orderly(s, h) && Enabled(s, Start(t, job)) && Polite(s, Start(t, job))
    ensures Orderly(Next(s, Start(t, job)), h')
  {
    h' := if job == Disable then t else h;
    hide Token, Shape, Polite;
    ShapeStart(s, t, job, h);
    TokenStart(s, t, job, h);
    assert PcOf(Next(s, Start(t, job)), h') == if job == Disable then DisTest else PcOf(s, h);
  }

  lemma ShapeStart(s: State, t: nat, job: Job, h: int)
    requires Shape(s, h) && Enabled(s, Start(t, job)) && Polite(s, Start(t, job))
    ensures -1 <= h < |s.callers| && h != t && (job == Disable ==> h == -1)
    ensures Shape(Next(s, Start(t, job)), if job == Disable then t else h)
  {
    assert h >= 0 ==> !Passive(s.callers[h]);
    hide HoldsMutex;
  }

  lemma TokenStart(s: State, t: nat, job: Job, h: int)
    requires Token(s, PcOf(s, h)) && Enabled(s, Start(t, job)) && h != t && (job == Disable ==> h == -1)
    ensures Token(Next(s, Start(t, job)), if job == Disable then DisTest else PcOf(s, h))
  {
    hide Requests, Responses, Sleeps, Wakeups;
    assert SameCounts(s, Next(s, Start(t, job)));
    hide Outstanding, Naps, Calls;
  }

  /** A polite step keeps the order. */
  lemma OrderlyNext(s: State, a: Action, h: int) returns (h': int)
    requires Sound(s) && Orderly(s, h) && Enabled(s, a) && Polite(s, a)
    ensures Orderly(Next(s, a), h')
  {
    hide Shape, Token, Sound, CallerStep, ReaderStep, Polite;
    h' := h;
    match a
    case Start(t, job) => h' := OrderlyStart(s, t, job, h);
    case Run(t) => h' := OrderlyRun(s, t, h);
    case Timeout(t) => OrderlyTimeout(s, t, h);
    case Read => OrderlyRead(s, h);
    case Take => TokenTake(s, PcOf(s, h)); ShapeSame(s, Next(s, a), h);
    case Answer => TokenAnswer(s, PcOf(s, h)); ShapeSame(s, Next(s, a), h);
    case Wake => TokenWake(s, PcOf(s, h)); ShapeSame(s, Next(s, a), h);
    case Chatter => TokenChatter(s, PcOf(s, h)); ShapeSame(s, Next(s, a), h);
  }

  lemma OrderlyTimeout(s: State, t: nat, h: int)
    requires Orderly(s, h) && Enabled(s, Timeout(t))
    ensures Orderly(Next(s, Timeout(t)), h)
  {
    hide Requests, Responses, Sleeps, Wakeups, Token, Shape;
    TimeoutShape(s, t, h);
    TimeoutToken(s, t, h);
  }

  lemma TimeoutShape(s: State, t: nat, h: int)
    requires Shape(s, h) && Enabled(s, Timeout(t))
    ensures h == t && Shape(Next(s, Timeout(t)), h)
  {
  }

  lemma TimeoutToken(s: State, t: nat, h: int)
    requires h == t && Enabled(s, Timeout(t)) && Token(s, PcOf(s, h))
    ensures Token(Next(s, Timeout(t)), PcOf(Next(s, Timeout(t)), h))
  {
    hide Requests, Responses, Sleeps, Wakeups;
  }

  lemma {:induction false} OrderlyRuns(n: nat, acts: seq<Action>, s: State) returns (h: int)
    requires Exec(Init(n), acts) == Some(s) && AllPolite(Init(n), acts)
    ensures Orderly(s, h)
  {
    if acts == [] {
      h := -1;
    } else {
      var k := |acts| - 1;
      var prev := Exec(Init(n), acts[..k]).value;
      assert forall j :: 0 <= j < k ==> acts[..k][..j] == acts[..j];
      h := OrderlyRuns(n, acts[..k], prev);
      SoundRuns(n, acts[..k], prev);
      hide Orderly, Sound, Next;
      h := OrderlyNext(prev, acts[k], h);
    }
  }

  predicate WritesSleep(s: State, a: Action) {
    s.host.suspend && match a
    case Read => s.reader.RSleep?
    case Run(t) => t < |s.callers| && s.callers[t] == FirstSleep
    case _ => false
  }

  predicate WritesRequest(s: State, a: Action) {
    a.Run? && a.t < |s.callers| && s.callers[a.t].Counted?
  }

  /**
   * In every polite interleaving: a sleep request is written only when no request is outstanding, none
   * is about to be written, and the device does not already have leave to doze; with suspend enabled a
   * request is written only after a wakeup indication handled since the last sleep request; and no
   * message of any kind ever meets a dozing device.
   */
  lemma SleepSafety(n: nat, acts: seq<Action>, s: State, a: Action)
    requires Exec(Init(n), acts) == Some(s) && AllPolite(Init(n), acts) && Enabled(s, a)
    ensures WritesSleep(s, a) ==>
              Outstanding(s) == 0 && Naps(s) == 0 && forall i :: 0 <= i < |s.callers| ==> !s.callers[i].Counted?
    ensures WritesRequest(s, a) && s.host.suspend ==> s.log.awakened && Naps(s) == 0
    ensures a == Take ==> !s.dev.dozing
  {
    var h := OrderlyRuns(n, acts, s);
    if a.Run? && !Passive(s.callers[a.t]) {
      assert a.t == h;
    }
  }
}
