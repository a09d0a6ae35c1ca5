/**
 * What calls come to over whole runs: each writes exactly one request, and enable_suspend leaves the flag as
 * it was asked to, with its config request written while the flag is down.
 */
module HioCalls {
  import opened Wrappers
  import opened HioProtocol
  import opened HioResponses
  import opened HioSleep

  // ---- One request for each call ----

  /** The calls started, enable_suspend included. */
  function Starts(acts: seq<Action>): nat {
    if acts == [] then 0 else Starts(acts[..|acts| - 1]) + if acts[|acts| - 1].Start? then 1 else 0
  }

  /** A thread that still has its request to write. */
  predicate Owes(pc: Pc) {
    !(pc == Idle || pc.Sent? || pc.Popping? || pc.Returning? || pc == SetFlag || pc == FirstSleep)
  }

  function Owing(pcs: seq<Pc>): nat {
    if pcs == [] then 0 else Owing(pcs[..|pcs| - 1]) + if Owes(pcs[|pcs| - 1]) then 1 else 0
  }

  lemma {:induction false} OwingUpdate(pcs: seq<Pc>, t: nat, pc: Pc)
    requires t < |pcs|
    ensures Owing(pcs[t := pc]) + (if Owes(pcs[t]) then 1 else 0) == Owing(pcs) + if Owes(pc) then 1 else 0
  {
    hide Owes;
    var n := |pcs| - 1;
    if t == n {
      assert pcs[t := pc][..n] == pcs[..n];
    } else {
      OwingUpdate(pcs[..n], t, pc);
      assert pcs[t := pc][..n] == pcs[..n][t := pc];
    }
  }

  lemma {:induction false} NobodyOwes(n: nat)
    ensures Owing(seq(n, _ => Idle)) == 0
  {
    if n > 0 {
      NobodyOwes(n - 1);
      assert seq(n, _ => Idle)[..n - 1] == seq(n - 1, _ => Idle);
    }
  }

  lemma {:induction false} IdleOwesNothing(pcs: seq<Pc>)
    requires forall i :: 0 <= i < |pcs| ==> pcs[i] == Idle
    ensures Owing(pcs) == 0
  {
    if pcs != [] {
      IdleOwesNothing(pcs[..|pcs| - 1]);
    }
  }

  /** What a step of one thread does to what it owes and to what has been written. */
  lemma RunPays(s: State, t: nat)
    requires Enabled(s, Run(t))
    ensures var s' := CallerStep(s, t);
            && |s'.callers| == |s.callers| && s'.callers == s.callers[t := s'.callers[t]]
            && |s'.log.sent| + (if Owes(s'.callers[t]) then 1 else 0) == |s.log.sent| + if Owes(s.callers[t]) then 1 else 0
  {
  }

  lemma OthersPayNothing(s: State, a: Action)
    requires Enabled(s, a) && (a == Read || a == Take || a == Answer || a == Wake || a == Chatter)
    ensures Next(s, a).callers == s.callers && Next(s, a).log.sent == s.log.sent
  {
  }

  lemma OwedNext(s: State, a: Action)
    requires Enabled(s, a)
    ensures var s' := Next(s, a);
            |s'.log.sent| + Owing(s'.callers) == |s.log.sent| + Owing(s.callers) + if a.Start? then 1 else 0
  {
    hide Owing;
    match a
    case Start(t, job) => OwingUpdate(s.callers, t, if job == Disable then DisTest else Begin(job));
    case Run(t) =>
      RunPays(s, t);
      hide CallerStep, Owes;
      OwingUpdate(s.callers, t, CallerStep(s, t).callers[t]);
    case Timeout(t) => OwingUpdate(s.callers, t, Returning(Plain, s.callers[t].trx, None));
    case _ => OthersPayNothing(s, a);
  }

  /** In every run: requests written and requests still owed make up the calls started. */
  lemma {:induction false} RequestsAreCalls(n: nat, acts: seq<Action>, s: State)
    requires Exec(Init(n), acts) == Some(s)
    ensures |s.log.sent| + Owing(s.callers) == Starts(acts)
  {
    if acts == [] {
      NobodyOwes(n);
    } else {
      var prev := Exec(Init(n), acts[..|acts| - 1]).value;
      RequestsAreCalls(n, acts[..|acts| - 1], prev);
      hide Next, Owing;
      OwedNext(prev, acts[|acts| - 1]);
    }
  }

  /** When everybody is out of their calls, as many requests have been written as calls were started. */
  lemma OneRequestPerCall(n: nat, acts: seq<Action>, s: State)
    requires Exec(Init(n), acts) == Some(s) && forall i :: 0 <= i < |s.callers| ==> s.callers[i] == Idle
    ensures |s.log.sent| == Starts(acts)
    ensures s.log.taken + s.log.timeouts == Starts(acts)
  {
    RequestsAreCalls(n, acts, s);
    IdleOwesNothing(s.callers);
    SoundRuns(n, acts, s);
    assert s.host.mutex == None;
  }

  // ---- What enable_suspend leaves ----

  /** What the last enable_suspend was asked for. */
  function Asked(acts: seq<Action>): bool {
    if acts == [] then false
    else
      match acts[|acts| - 1]
      case Start(_, Enable) => true
      case Start(_, Disable) => false
      case _ => Asked(acts[..|acts| - 1])
  }

  /** A thread in enable_suspend(False) that has cleared the flag. */
  predicate Lowered(pc: Pc) {
    (pc.Begin? || HoldsMutex(pc)) && pc.job == Disable
  }

  /** Where the flag is while a thread is in enable_suspend, and when none is. */
  ghost predicate FlagKept(s: State, asked: bool) {
    && (forall i :: 0 <= i < |s.callers| && Admin(s.callers[i]) ==> (Enabling(s.callers[i]) <==> asked))
    && (forall i :: 0 <= i < |s.callers| && Lowered(s.callers[i]) ==> !s.host.suspend)
    && (forall i :: 0 <= i < |s.callers| && Enabling(s.callers[i]) ==> (s.host.suspend <==> s.callers[i] == FirstSleep))
    && ((forall i :: 0 <= i < |s.callers| ==> !Admin(s.callers[i])) ==> s.host.suspend == asked)
  }

  lemma FlagRun(s: State, t: nat, h: int, asked: bool)
    requires Shape(s, h) && FlagKept(s, asked) && Enabled(s, Run(t))
    ensures FlagKept(CallerStep(s, t), asked)
  {
    var pc := s.callers[t];
    SuccessorFlags(s, pc);
    SuspendFlag(s, t, pc);
    var s' := CallerStep(s, t);
    assert s'.callers == s.callers[t := Successor(s, pc)];
    assert s'.host.suspend == Effect(s, t, pc).host.suspend;
    hide Effect, Successor, CallerStep;
    if Admin(pc) {
      assert forall i :: 0 <= i < |s.callers| && i != t ==> s.callers[i] == Idle;
      FlagAlone(s, s', t, asked);
    } else {
      FlagElsewhere(s, s', t, asked);
    }
  }

  /** A step of the one thread in enable_suspend. */
  lemma FlagAlone(s: State, s': State, t: nat, asked: bool)
    requires t < |s.callers| && FlagKept(s, asked) && Admin(s.callers[t]) && |s'.callers| == |s.callers|
    requires forall i :: 0 <= i < |s.callers| && i != t ==> s'.callers[i] == Idle
    requires var pc, q := s.callers[t], s'.callers[t];
             && (Admin(q) ==> (Enabling(q) <==> Enabling(pc)))
             && (Lowered(q) <==> pc == DisFlag || (Lowered(pc) && !pc.Returning?))
             && (q == FirstSleep <==> pc == SetFlag)
             && (!Admin(q) <==> pc == FirstSleep || (pc.Returning? && pc.job == Disable))
             && s'.host.suspend == if pc == SetFlag then true else if pc == DisFlag then false else s.host.suspend
    ensures FlagKept(s', asked)
  {
  }

  /** A step of another thread. */
  lemma FlagElsewhere(s: State, s': State, t: nat, asked: bool)
    requires t < |s.callers| && FlagKept(s, asked) && !Admin(s.callers[t]) && |s'.callers| == |s.callers|
    requires !Admin(s'.callers[t]) && s'.host.suspend == s.host.suspend
    requires forall i :: 0 <= i < |s.callers| && i != t ==> s'.callers[i] == s.callers[i]
    ensures FlagKept(s', asked)
  {
    assert forall i :: 0 <= i < |s.callers| ==> (Admin(s'.callers[i]) <==> Admin(s.callers[i]));
    assert forall pc {:trigger Lowered(pc)} :: Lowered(pc) ==> Admin(pc);
    assert forall pc {:trigger Enabling(pc)} :: Enabling(pc) ==> Admin(pc);
    hide Admin, Lowered, Enabling;
  }

  /** How far a step takes a thread through enable_suspend. */
  lemma SuccessorFlags(s: State, pc: Pc)
    requires pc != Idle
    ensures var q := Successor(s, pc);
            && (Admin(q) ==> Admin(pc) && (Enabling(q) <==> Enabling(pc)))
            && (Lowered(q) <==> pc == DisFlag || (Lowered(pc) && !pc.Returning?))
            && (q == FirstSleep <==> pc == SetFlag)
            && (Admin(pc) ==> (!Admin(q) <==> pc == FirstSleep || (pc.Returning? && pc.job == Disable)))
  {
  }

  lemma FlagStart(s: State, t: nat, job: Job, h: int, asked: bool)
    requires Shape(s, h) && FlagKept(s, asked) && Enabled(s, Start(t, job)) && Polite(s, Start(t, job))
    ensures FlagKept(Next(s, Start(t, job)), if job == Plain then asked else job == Enable)
  {
    var s' := Next(s, Start(t, job));
    assert forall i :: 0 <= i < |s.callers| && i != t ==> s'.callers[i] == s.callers[i];
    assert s'.callers[t] == if job == Disable then DisTest else Begin(job);
    if job == Plain {
      assert !Admin(s.callers[t]) && !Admin(s'.callers[t]);
      hide Shape;
      FlagElsewhere(s, s', t, asked);
    }
    hide HoldsMutex;
  }

  lemma FlagSame(s: State, s': State, asked: bool)
    requires FlagKept(s, asked) && s'.callers == s.callers && s'.host.suspend == s.host.suspend
    ensures FlagKept(s', asked)
  {
  }

  lemma FlagTimeout(s: State, t: nat, asked: bool)
    requires FlagKept(s, asked) && Enabled(s, Timeout(t))
    ensures FlagKept(Next(s, Timeout(t)), asked)
  {
    var s' := Next(s, Timeout(t));
    assert forall i :: 0 <= i < |s.callers| && i != t ==> s'.callers[i] == s.callers[i];
    assert !Admin(s'.callers[t]) && !Admin(s.callers[t]);
  }

  lemma OthersKeepFlag(s: State, a: Action)
    requires Enabled(s, a) && (a == Read || a == Take || a == Answer || a == Wake || a == Chatter)
    ensures Next(s, a).callers == s.callers && Next(s, a).host.suspend == s.host.suspend
  {
  }

  lemma {:induction false} FlagRuns(n: nat, acts: seq<Action>, s: State)
    requires Exec(Init(n), acts) == Some(s) && AllPolite(Init(n), acts)
    ensures FlagKept(s, Asked(acts))
  {
    if acts != [] {
      var k := |acts| - 1;
      var init, a := acts[..k], acts[k];
      var prev := Exec(Init(n), init).value;
      assert forall j :: 0 <= j < k ==> init[..j] == acts[..j] && init[j] == acts[j];
      assert Polite(prev, a);
      hide AllPolite, FlagKept, Exec;
      FlagRuns(n, init, prev);
      SoundRuns(n, init, prev);
      var h := OrderlyRuns(n, init, prev);
      FlagNext(prev, a, h, Asked(init));
    }
  }

  lemma FlagNext(s: State, a: Action, h: int, asked: bool)
    requires Sound(s) && Orderly(s, h) && FlagKept(s, asked) && Enabled(s, a) && Polite(s, a)
    ensures FlagKept(Next(s, a), match a case Start(_, Enable) => true case Start(_, Disable) => false case _ => asked)
  {
    hide FlagKept, Polite, Shape, Token, Accounted;
    match a
    case Start(t, job) => FlagStart(s, t, job, h, asked);
    case Run(t) => FlagRun(s, t, h, asked);
    case Timeout(t) => FlagTimeout(s, t, asked);
    case _ =>
      OthersKeepFlag(s, a);
      FlagSame(s, Next(s, a), asked);
  }

  /**
   * Under the usage rule: when nobody is in a call the flag is as the last enable_suspend was asked for, and
   * the config request of every enable_suspend is written while the flag is down.
   */
  lemma FlagAsAsked(n: nat, acts: seq<Action>, s: State)
    requires Exec(Init(n), acts) == Some(s) && AllPolite(Init(n), acts)
    ensures (forall i :: 0 <= i < |s.callers| ==> s.callers[i] == Idle) ==> s.host.suspend == Asked(acts)
    ensures forall t :: 0 <= t < |s.callers| && s.callers[t].Counted? && s.callers[t].job != Plain ==> !s.host.suspend
  {
    FlagRuns(n, acts, s);
    hide Exec, AllPolite, Asked;
    forall t | 0 <= t < |s.callers| && s.callers[t].Counted? && s.callers[t].job != Plain ensures !s.host.suspend {
      assert if s.callers[t].job == Enable then Enabling(s.callers[t]) else Lowered(s.callers[t]);
    }
  }

  // ---- What the history says ----

  /** A wakeup indication has been handled since the last sleep request was written, as the run itself tells. */
  ghost function Woken(n: nat, acts: seq<Action>): bool
    requires Exec(Init(n), acts).Some?
  {
    if acts == [] then false
    else
      var a, prev, s := acts[|acts| - 1], Exec(Init(n), acts[..|acts| - 1]).value, Exec(Init(n), acts).value;
      if s.dev.up == prev.dev.up + [Sleep] then false
      else if a == Read && prev.reader == RWake then true
      else Woken(n, acts[..|acts| - 1])
  }

  lemma AwakenedNext(s: State, a: Action)
    requires Enabled(s, a)
    ensures Next(s, a).log.awakened == if Next(s, a).dev.up == s.dev.up + [Sleep] then false
                                       else if a == Read && s.reader == RWake then true else s.log.awakened
  {
    SleepIsNoRequest(s.dev.up, s.host.trxid);
    match a
    case Run(t) => AwakenedRun(s, t);
    case _ =>
  }

  lemma SleepIsNoRequest(up: seq<Up>, x: nat)
    ensures up + [Req(x)] != up + [Sleep] && up != up + [Sleep]
  {
    assert (up + [Req(x)])[|up|] == Req(x) && (up + [Sleep])[|up|] == Sleep;
  }

  lemma AwakenedRun(s: State, t: nat)
    requires Enabled(s, Run(t))
    ensures CallerStep(s, t).log.awakened == if CallerStep(s, t).dev.up == s.dev.up + [Sleep] then false else s.log.awakened
  {
    SleepIsNoRequest(s.dev.up, s.host.trxid);
  }

  lemma {:induction false} AwakenedMeans(n: nat, acts: seq<Action>, s: State)
    requires Exec(Init(n), acts) == Some(s)
    ensures s.log.awakened == Woken(n, acts)
  {
    if acts != [] {
      var init := acts[..|acts| - 1];
      AwakenedMeans(n, init, Exec(Init(n), init).value);
      AwakenedNext(Exec(Init(n), init).value, acts[|acts| - 1]);
      hide Next;
    }
  }
}
