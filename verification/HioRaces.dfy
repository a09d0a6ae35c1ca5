/**
 * Why the discipline of `HioSleep.Polite` is needed. Each of its rules is broken here by one action, starting from
 * any state that keeps them with nobody in a call (and the other rules kept), and a run is given that ends badly.
 */
module HioRaces {
  import opened Wrappers
  import opened HioProtocol
  import opened HioResponses
  import opened HioSleep
  import opened HioProgress
  import opened HioDrive

  predicate AllIdle(s: State) {
    forall i :: 0 <= i < |s.callers| ==> s.callers[i] == Idle
  }

  // ---- Runs put together ----

  lemma {:induction false} LeadsPolitely(s0: State, acts: seq<Action>, s: State)
    requires Leads(s0, acts, s)
    ensures Exec(s0, acts) == Some(s) && AllPolite(s0, acts)
  {
  }

  lemma PoliteThen(s: State, xs: seq<Action>, m: State, ys: seq<Action>)
    requires Exec(s, xs) == Some(m) && AllPolite(s, xs) && AllPolite(m, ys)
    ensures Exec(s, xs + ys) == Exec(m, ys) && AllPolite(s, xs + ys)
  {
    hide Polite;
    ExecAppend(s, xs, ys);
    var all := xs + ys;
    forall k | 0 <= k < |all| && Exec(s, all[..k]).Some? ensures Polite(Exec(s, all[..k]).value, all[k]) {
      if k < |xs| {
        assert all[..k] == xs[..k];
      } else {
        assert all[..k] == xs + ys[..k - |xs|] && all[k] == ys[k - |xs|];
        ExecAppend(s, xs, ys[..k - |xs|]);
      }
    }
  }

  lemma PoliteOne(s: State, a: Action)
    requires Enabled(s, a) && Polite(s, a)
    ensures Exec(s, [a]) == Some(Next(s, a)) && AllPolite(s, [a])
  {
    hide Polite, Next, Enabled;
    assert [a][..0] == [];
  }

  /** What a polite run with everybody idle has left. */
  lemma IdleFacts(n: nat, acts: seq<Action>, s: State)
    requires Exec(Init(n), acts) == Some(s) && AllPolite(Init(n), acts) && AllIdle(s)
    ensures Sound(s) && Token(s, Idle) && s.host.mutex == None
  {
    hide Token, Sound, Shape, Exec, AllPolite, Init;
    SoundRuns(n, acts, s);
    var h := OrderlyRuns(n, acts, s);
    IdleShape(s, h);
  }

  lemma IdleShape(s: State, h: int)
    requires Sound(s) && Shape(s, h) && AllIdle(s)
    ensures h == -1 && s.host.mutex == None
  {
    hide Accounted, Admin, Enabling;
    assert h >= 0 ==> Passive(s.callers[h]);
    assert s.host.mutex.Some? ==> HoldsMutex(s.callers[s.host.mutex.value]);
  }

  /** The initial state, and the first start from it. */
  lemma FirstStart(n: nat, job: Job)
    requires n > 0 && job != Disable
    ensures var i, a := Init(n), Start(0, job);
            && Sound(i) && Token(i, Idle) && AllIdle(i) && i.host.mutex == None && !i.host.suspend && |i.callers| == n
            && Enabled(i, a) && Exec(i, [a]) == Some(Next(i, a)) && AllPolite(i, [a])
            && Next(i, a) == i.(callers := i.callers[0 := Begin(job)]) && Drained(Next(i, a))
            && i.host.sem == 0
  {
    SoundRuns(n, [], Init(n));
    PoliteOne(Init(n), Start(0, job));
    hide Sound, AllPolite, Exec;
  }

  // ---- Enabling suspend ----

  /** After `first`, polite steps lead to a sleep request written at the wrong moment. */
  ghost predicate GoesWrong(s: State, first: Action, more: seq<Action>, a: Action) {
    && Enabled(s, first) && AllPolite(Next(s, first), more)
    && match Exec(Next(s, first), more)
       case None => false
       case Some(s') => Enabled(s', a) && WritesSleep(s', a) && Outstanding(s') + Naps(s') > 0
  }

  /** From any state with nobody in a call: an Enable that has started, with nothing in flight. */
  lemma EnableStarts(s: State, t: nat) returns (more: seq<Action>, s': State)
    requires Sound(s) && AllIdle(s) && s.host.mutex == None && t < |s.callers|
    ensures Enabled(s, Start(t, Enable)) && Leads(Next(s, Start(t, Enable)), more, s')
    ensures s'.callers == s.callers[t := Begin(Enable)] && s'.host.mutex == None && Drained(s')
    ensures s'.host.suspend == s.host.suspend && s'.host.sem == |s'.host.queue| == s.log.timeouts
    ensures Token(s, Idle) ==> s'.host.pending == 0 && s'.dev.dozing == s.host.suspend
  {
    var a := Start(t, Enable);
    var s0 := Next(s, a);
    SoundNext(s, a);
    if Token(s, Idle) {
      TokenStart(s, t, Enable, -1);
    }
    hide Sound, Token;
    Stay(s0);
    more, s' := Drain(s0, [], s0);
    AtRest(s');
  }

  /**
   * After a timeout, enabling suspend can go wrong from every reachable state: a late response is taken for
   * the answer to the config request, which is outstanding when the sleep request is written.
   */
  lemma EnableAfterTimeout(n: nat, acts: seq<Action>, s: State, t: nat) returns (more: seq<Action>, s': State)
    requires Exec(Init(n), acts) == Some(s) && AllIdle(s) && t < |s.callers|
    requires !s.host.suspend && s.log.timeouts > 0
    ensures Enabled(s, Start(t, Enable)) && Leads(Next(s, Start(t, Enable)), more, s')
    ensures Enabled(s', Run(t)) && WritesSleep(s', Run(t)) && Outstanding(s') > 0
  {
    SoundRuns(n, acts, s);
    assert s.host.mutex == None;
    hide Sound, Leads, Token;
    var a := Start(t, Enable);
    SoundNext(s, a);
    Stay(Next(s, a));
    more, s' := LateResponseTaken(Next(s, a), [], Next(s, a), t);
  }

  lemma LateResponseTaken(s0: State, acts: seq<Action>, s: State, t: nat) returns (more: seq<Action>, s': State)
    requires Leads(s0, acts, s) && Sound(s) && t < |s.callers| && s.callers[t] == Begin(Enable)
    requires s.host.mutex == None && !s.host.suspend && s.log.timeouts > 0
    ensures Leads(s0, more, s')
    ensures Enabled(s', Run(t)) && WritesSleep(s', Run(t)) && Outstanding(s') > 0
  {
    hide Sound, Leads, Token;
    more, s' := Drain(s0, acts, s);
    AtRest(s');
    more, s' := Rises(s0, more, s', t, Enable);
    more, s' := Sends(s0, more, s', t, Enable);
    var x := s'.dev.up[0];
    more, s' := Collects(s0, more, s', t);
    more, s' := Flags(s0, more, s', t);
    assert s'.dev.up == [x];
  }

  /** From any state that a polite run leaves with nobody in a call: the config call has returned. */
  lemma Configures(s: State, t: nat) returns (more: seq<Action>, s': State)
    requires Sound(s) && Token(s, Idle) && AllIdle(s) && s.host.mutex == None && t < |s.callers|
    ensures Enabled(s, Start(t, Enable)) && Leads(Next(s, Start(t, Enable)), more, s')
    ensures s'.callers == s.callers[t := SetFlag] && s'.host.mutex == None && s'.host.suspend == s.host.suspend
    ensures s'.reader == RIdle && s'.dev.down == [] && s'.dev.todo == []
    ensures s'.dev.up == if s.host.suspend then [Sleep] else []
  {
    hide Sound, Leads, Token;
    var s0, cs := Next(s, Start(t, Enable)), s.callers;
    more, s' := EnableStarts(s, t);
    more, s' := Rises(s0, more, s', t, Enable);
    var x := s'.host.trxid;
    more, s' := Sends(s0, more, s', t, Enable);
    assert s'.dev.up == [Req(x)];
    more, s' := Answered(s0, more, s', x);
    more, s' := Collects(s0, more, s', t);
    assert s'.callers == cs[t := SetFlag];
  }

  /** Enabling what is enabled already writes a sleep request to a device that has leave to doze. */
  lemma EnableTwice(n: nat, acts: seq<Action>, s: State, t: nat) returns (more: seq<Action>, s': State)
    requires Exec(Init(n), acts) == Some(s) && AllPolite(Init(n), acts) && AllIdle(s) && t < |s.callers|
    requires s.host.suspend
    ensures Enabled(s, Start(t, Enable)) && Leads(Next(s, Start(t, Enable)), more, s')
    ensures Enabled(s', Run(t)) && WritesSleep(s', Run(t)) && Naps(s') > 0
  {
    IdleFacts(n, acts, s);
    hide Sound, Leads, Token;
    more, s' := Configures(s, t);
    more, s' := Flags(Next(s, Start(t, Enable)), more, s', t);
    assert s'.dev.up == [Sleep];
  }

  /**
   * With nobody in a call, starting enable_suspend(True) can lead to a sleep request at the wrong moment
   * exactly when suspend is enabled already or a wait has timed out.
   */
  lemma EnableRule(n: nat, acts: seq<Action>, s: State, t: nat)
    requires Exec(Init(n), acts) == Some(s) && AllPolite(Init(n), acts) && AllIdle(s) && t < |s.callers|
    ensures (exists more, a :: GoesWrong(s, Start(t, Enable), more, a)) <==> s.host.suspend || s.log.timeouts > 0
  {
    var first := Start(t, Enable);
    if s.host.suspend {
      var more, s' := EnableTwice(n, acts, s, t);
      LeadsPolitely(Next(s, first), more, s');
      assert GoesWrong(s, first, more, Run(t));
    } else if s.log.timeouts > 0 {
      var more, s' := EnableAfterTimeout(n, acts, s, t);
      LeadsPolitely(Next(s, first), more, s');
      assert GoesWrong(s, first, more, Run(t));
    } else {
      forall more, a | GoesWrong(s, first, more, a) ensures false {
        PoliteEnable(n, acts, s, t, more, a);
      }
    }
  }

  lemma PoliteEnable(n: nat, acts: seq<Action>, s: State, t: nat, more: seq<Action>, a: Action)
    requires Exec(Init(n), acts) == Some(s) && AllPolite(Init(n), acts) && AllIdle(s) && t < |s.callers|
    requires !s.host.suspend && s.log.timeouts == 0
    ensures !GoesWrong(s, Start(t, Enable), more, a)
  {
    var first := Start(t, Enable);
    var s0 := Next(s, first);
    PoliteOne(s, first);
    hide Polite, Next, AllPolite;
    PoliteThen(Init(n), acts, s, [first]);
    if AllPolite(s0, more) && Exec(s0, more).Some? {
      var s' := Exec(s0, more).value;
      PoliteThen(Init(n), acts + [first], s0, more);
      if Enabled(s', a) {
        SleepSafety(n, acts + [first] + more, s', a);
      }
    }
  }

  // ---- Calls while suspend is being enabled ----

  /**
   * From every state with nobody in a call and no wait timed out: thread `u` has written a request, and thread
   * `t` starts enable_suspend(True). The wait of `u` times out, and its late response is taken for the answer to the
   * config request.
   */
  lemma EnableDuringCall(n: nat, acts: seq<Action>, s: State, t: nat, u: nat)
    returns (xs: seq<Action>, m: State, ys: seq<Action>, s': State)
    requires Exec(Init(n), acts) == Some(s) && AllPolite(Init(n), acts) && AllIdle(s) && !s.host.suspend
    requires s.log.timeouts == 0 && t < |s.callers| && u < |s.callers| && t != u
    ensures Enabled(s, Start(u, Plain)) && Leads(Next(s, Start(u, Plain)), xs, m)
    ensures Exec(m, [Start(t, Enable), Timeout(u), Run(u)]).Some?
    ensures Leads(Exec(m, [Start(t, Enable), Timeout(u), Run(u)]).value, ys, s')
    ensures Enabled(s', Run(t)) && WritesSleep(s', Run(t)) && Outstanding(s') > 0
  {
    hide Sound, Leads, Token, Exec, AllPolite;
    IdleFacts(n, acts, s);
    StartsCall(s, u, Plain);
    xs, m := Writes(Next(s, Start(u, Plain)), u);
    var m' := EnableWhileLate(m, t, u);
    Stay(m');
    ys, s' := LateResponseTaken(m', [], m', t);
  }

  /** A call with suspend disabled writes its request. */
  lemma Writes(s: State, u: nat) returns (xs: seq<Action>, m: State)
    requires Sound(s) && s.host.mutex == None && !s.host.suspend && u < |s.callers| && s.callers[u] == Begin(Plain)
    ensures Leads(s, xs, m) && Sound(m) && |m.callers| == |s.callers| && m.callers[u].Sent? && m.callers[u].job == Plain
    ensures forall i :: 0 <= i < |s.callers| && i != u ==> m.callers[i] == s.callers[i]
    ensures !m.host.suspend && m.host.mutex == Some(u) && m.host.sem == s.log.timeouts
  {
    hide Sound, Leads, Token;
    Stay(s);
    xs, m := Drain(s, [], s);
    AtRest(m);
    xs, m := Rises(s, xs, m, u, Plain);
    xs, m := Sends(s, xs, m, u, Plain);
    LeadsSoundly(s, xs, m);
  }

  lemma {:induction false} LeadsSoundly(s: State, xs: seq<Action>, m: State)
    requires Sound(s) && Leads(s, xs, m)
    ensures Sound(m)
  {
    hide Sound, Next;
    if xs != [] {
      var k := |xs| - 1;
      var prev := Exec(s, xs[..k]).value;
      assert forall i :: 0 <= i < k ==> xs[..k][i] == xs[i];
      LeadsSoundly(s, xs[..k], prev);
      SoundNext(prev, xs[k]);
    }
  }

  lemma EnableWhileLate(m: State, t: nat, u: nat) returns (m': State)
    requires Sound(m) && t < |m.callers| && u < |m.callers| && t != u && m.callers[t] == Idle
    requires m.callers[u].Sent? && m.callers[u].job == Plain && m.host.mutex == Some(u) && !m.host.suspend
    requires m.host.sem == 0
    ensures Exec(m, [Start(t, Enable), Timeout(u), Run(u)]) == Some(m') && Sound(m')
    ensures m'.callers == m.callers[t := Begin(Enable)][u := Idle]
    ensures m'.host.mutex == None && !m'.host.suspend && m'.log.timeouts > 0
  {
    hide Sound, Exec, AllPolite;
    var a, b := Start(t, Enable), Timeout(u);
    var m1 := Next(m, a);
    SoundNext(m, a);
    SoundNext(m1, b);
    m' := GivesUp(m1, u);
    SoundNext(Next(m1, b), Run(u));
    OneStep(m, a);
    ExecAppend(m, [a], [b, Run(u)]);
    assert [a] + [b, Run(u)] == [a, b, Run(u)];
    TwoSteps(m1, b, Run(u));
  }

  lemma OneStep(s: State, a: Action)
    requires Enabled(s, a)
    ensures Exec(s, [a]) == Some(Next(s, a))
  {
    hide Next, Enabled;
    assert [a][..0] == [];
  }

  /**
   * From every state with nobody in a call: thread `t` enables suspend, and thread `u` starts a call after
   * the config call has returned. It does not wake the device, and the sleep request of `t` goes out while
   * the request of `u` is outstanding.
   */
  lemma CallDuringEnable(n: nat, acts: seq<Action>, s: State, t: nat, u: nat)
    returns (xs: seq<Action>, m: State, ys: seq<Action>, s': State)
    requires Exec(Init(n), acts) == Some(s) && AllPolite(Init(n), acts) && AllIdle(s) && !s.host.suspend
    requires t < |s.callers| && u < |s.callers| && t != u
    ensures Enabled(s, Start(t, Enable)) && Leads(Next(s, Start(t, Enable)), xs, m)
    ensures Enabled(m, Start(u, Plain)) && Leads(Next(m, Start(u, Plain)), ys, s')
    ensures Enabled(s', Run(t)) && WritesSleep(s', Run(t)) && Outstanding(s') > 0
  {
    IdleFacts(n, acts, s);
    hide Sound, Leads, Token;
    xs, m := Configures(s, t);
    ys, s' := CallsMeanwhile(m, t, u);
  }

  lemma CallsMeanwhile(m: State, t: nat, u: nat) returns (ys: seq<Action>, s': State)
    requires t < |m.callers| && u < |m.callers| && m.callers[t] == SetFlag && m.callers[u] == Idle
    requires m.host.mutex == None && !m.host.suspend && Drained(m)
    ensures Enabled(m, Start(u, Plain)) && Leads(Next(m, Start(u, Plain)), ys, s')
    ensures Enabled(s', Run(t)) && WritesSleep(s', Run(t)) && Outstanding(s') > 0
  {
    hide Leads;
    var m0 := Next(m, Start(u, Plain));
    Stay(m0);
    ys, s' := Rises(m0, [], m0, u, Plain);
    ys, s' := Sends(m0, ys, s', u, Plain);
    var y := s'.dev.up[0];
    ys, s' := Flags(m0, ys, s', t);
    assert s'.dev.up == [y];
  }

  // ---- Calls while suspend is being disabled ----

  /**
   * What can follow: any step of the protocol, and a wakeup that does not come within half a second, which makes
   * target_wakeup raise an exception with the break line asserted and, in a call, with the mutex held.
   */
  datatype Later = Step(a: Action) | WakeFails(t: nat)

  predicate LaterEnabled(s: State, l: Later) {
    match l
    case Step(a) => Enabled(s, a)
    case WakeFails(t) => t < |s.callers| && (s.callers[t].Waiting? || s.callers[t].DisWaiting?) && !s.host.event
  }

  function LaterNext(s: State, l: Later): State
    requires LaterEnabled(s, l)
  {
    match l
    case Step(a) => Next(s, a)
    case WakeFails(t) => At(s, t, Idle)
  }

  function ExecLater(s: State, ls: seq<Later>): Option<State> {
    if ls == [] then Some(s)
    else
      match ExecLater(s, ls[..|ls| - 1])
      case None => None
      case Some(s') => if LaterEnabled(s', ls[|ls| - 1]) then Some(LaterNext(s', ls[|ls| - 1])) else None
  }

  /** Not in a call, waiting for the mutex, or waking the device in enable_suspend(False). */
  predicate Outside(pc: Pc) {
    pc.Idle? || pc.Begin? || pc.DisTest? || pc.DisCleared? || pc.DisWaiting?
  }

  /** The mutex belongs to `u`, which waits for a wakeup that nothing is going to cause, or has given up. */
  ghost predicate Stranded(s: State, u: nat) {
    && u < |s.callers| && (s.callers[u].Waiting? || Outside(s.callers[u]))
    && s.host.mutex == Some(u) && s.host.suspend && !s.host.event
    && s.reader == RIdle && s.dev.up == [] && s.dev.todo == [] && !s.dev.dozing
    && (forall i :: 0 <= i < |s.dev.down| ==> s.dev.down[i] == Other)
    && (forall i :: 0 <= i < |s.callers| && i != u ==> Outside(s.callers[i]))
  }

  /** The call of `u` and the enable_suspend(False) of `t` are still waiting, unless they have given up. */
  ghost predicate StillWaiting(s: State, u: nat, t: nat, ls: seq<Later>) {
    && u < |s.callers| && t < |s.callers|
    && (s.callers[u].Waiting? || WakeFails(u) in ls)
    && (s.callers[t].DisCleared? || s.callers[t].DisWaiting? || WakeFails(t) in ls)
  }

  /** No step of anybody, not even a new call or an exception, changes that. */
  lemma StrandedNext(s: State, u: nat, l: Later)
    requires Stranded(s, u) && LaterEnabled(s, l)
    ensures Stranded(LaterNext(s, l), u) && LaterNext(s, l).log == s.log
  {
    if l.Step? && l.a.Run? {
      StrandedRun(s, u, l.a.t);
    }
  }

  lemma StrandedRun(s: State, u: nat, t: nat)
    requires Stranded(s, u) && Enabled(s, Run(t))
    ensures Stranded(Next(s, Run(t)), u) && Next(s, Run(t)).log == s.log
  {
    var pc := s.callers[t];
    assert pc.DisTest? || pc.DisCleared?;
    var s' := Next(s, Run(t));
    assert s'.dev == s.dev && s'.reader == s.reader && s'.log == s.log;
    assert s'.callers == s.callers[t := if pc.DisTest? then DisCleared else DisWaiting];
  }

  lemma WaitingNext(s: State, u: nat, t: nat, ls: seq<Later>, l: Later)
    requires Stranded(s, u) && LaterEnabled(s, l) && u != t && StillWaiting(s, u, t, ls)
    ensures StillWaiting(LaterNext(s, l), u, t, ls + [l])
  {
    assert l in ls + [l];
  }

  lemma {:induction false} StrandedForever(s: State, u: nat, t: nat, ls: seq<Later>, e: State)
    requires Stranded(s, u) && u != t && StillWaiting(s, u, t, []) && ExecLater(s, ls) == Some(e)
    ensures Stranded(e, u) && e.log == s.log && StillWaiting(e, u, t, ls)
  {
    if ls != [] {
      var n := |ls| - 1;
      var prev := ExecLater(s, ls[..n]).value;
      StrandedForever(s, u, t, ls[..n], prev);
      assert ls == ls[..n] + [ls[n]];
      hide Stranded, StillWaiting, LaterNext, LaterEnabled;
      StrandedNext(prev, u, ls[n]);
      WaitingNext(prev, u, t, ls[..n], ls[n]);
    }
  }

  /**
   * Whatever happens after `s`: the mutex stays with `u`, so that no later call gets past it; no request is ever
   * written again; and the calls of `u` and `t` do not return, though they may raise an exception.
   */
  ghost predicate NoneReturns(s: State, u: nat, t: nat) {
    forall ls {:trigger ExecLater(s, ls)} :: ExecLater(s, ls).Some? ==>
      var e := ExecLater(s, ls).value;
      e.host.mutex == Some(u) && e.log == s.log && StillWaiting(e, u, t, ls)
  }

  /**
   * From every state with suspend enabled and nobody in a call: thread `u` starts a call, the device wakes,
   * and thread `t` starts enable_suspend(False) before `u` has begun to wait for the wakeup event. It clears the
   * event, and neither of the two calls ever returns.
   */
  lemma DisableDuringCall(n: nat, acts: seq<Action>, s: State, t: nat, u: nat)
    returns (xs: seq<Action>, m: State, s': State)
    requires Exec(Init(n), acts) == Some(s) && AllPolite(Init(n), acts) && AllIdle(s) && s.host.suspend
    requires t < |s.callers| && u < |s.callers| && t != u
    ensures Enabled(s, Start(u, Plain)) && Leads(Next(s, Start(u, Plain)), xs, m)
    ensures Enabled(m, Start(t, Disable)) && Exec(m, [Start(t, Disable), Run(t)]) == Some(s')
    ensures NoneReturns(s', u, t)
  {
    hide Sound, Leads, Token, Exec, NoneReturns, AllPolite, Next, Enabled;
    IdleFacts(n, acts, s);
    StartsCall(s, u, Plain);
    xs, m := Awaits(Next(s, Start(u, Plain)), u);
    s' := Clears(m, t);
    Strands(m, t, u, s');
  }

  /** An idle thread starts; nobody else notices. */
  lemma StartsCall(s: State, u: nat, job: Job)
    requires Sound(s) && Token(s, Idle) && u < |s.callers| && s.callers[u] == Idle
    ensures Enabled(s, Start(u, job))
    ensures var s' := Next(s, Start(u, job));
            && Sound(s') && Token(s', Idle) && s'.host == s.host && s'.log == s.log
            && s'.callers == s.callers[u := if job == Disable then DisTest else Begin(job)]
  {
    SoundNext(s, Start(u, job));
    hide Sound;
  }

  /** enable_suspend(False) starts, finds suspend enabled, and clears the wakeup event. */
  lemma Clears(m: State, t: nat) returns (s': State)
    requires t < |m.callers| && m.callers[t] == Idle && m.host.suspend
    ensures Enabled(m, Start(t, Disable)) && Exec(m, [Start(t, Disable), Run(t)]) == Some(s')
    ensures s' == m.(callers := m.callers[t := DisCleared], host := m.host.(event := false))
  {
    hide Exec;
    TwoSteps(m, Start(t, Disable), Run(t));
    assert m.callers[t := DisTest][t := DisCleared] == m.callers[t := DisCleared];
    s' := m.(callers := m.callers[t := DisCleared], host := m.host.(event := false));
  }

  /** The wakeup event that `u` waits for is cleared. */
  lemma Strands(m: State, t: nat, u: nat, s': State)
    requires t < |m.callers| && u < |m.callers| && t != u && m.callers[u] == Waiting(Plain)
    requires forall i :: 0 <= i < |m.callers| && i != u && i != t ==> m.callers[i] == Idle
    requires m.host.mutex == Some(u) && m.host.suspend && Drained(m) && !m.dev.dozing
    requires s' == m.(callers := m.callers[t := DisCleared], host := m.host.(event := false))
    ensures NoneReturns(s', u, t)
  {
    assert Stranded(s', u) && StillWaiting(s', u, t, []);
    hide StillWaiting, ExecLater;
    forall ls | ExecLater(s', ls).Some?
      ensures var e := ExecLater(s', ls).value;
              e.host.mutex == Some(u) && e.log == s'.log && StillWaiting(e, u, t, ls)
    {
      StrandedForever(s', u, t, ls, ExecLater(s', ls).value);
    }
  }

  /** With suspend enabled a call gets as far as the wakeup event. */
  lemma Awaits(s: State, u: nat) returns (xs: seq<Action>, m: State)
    requires Sound(s) && Token(s, Idle) && s.host.suspend && s.host.mutex == None
    requires u < |s.callers| && s.callers[u] == Begin(Plain)
    ensures Leads(s, xs, m) && m.callers == s.callers[u := Waiting(Plain)] && Drained(m)
    ensures m.host.mutex == Some(u) && m.host.suspend && m.host.event && !m.dev.dozing
  {
    hide Sound, Leads, Token;
    Stay(s);
    xs, m := Drain(s, [], s);
    AtRest(m);
    xs, m := Wakes(s, xs, m, u, Plain);
  }

  /** The same when the call of `u` starts while `t` is in enable_suspend(False). */
  lemma CallDuringDisable(n: nat, acts: seq<Action>, s: State, t: nat, u: nat)
    returns (xs: seq<Action>, m: State, s': State)
    requires Exec(Init(n), acts) == Some(s) && AllPolite(Init(n), acts) && AllIdle(s) && s.host.suspend
    requires t < |s.callers| && u < |s.callers| && t != u
    ensures Exec(s, [Start(t, Disable), Start(u, Plain)]).Some?
    ensures Leads(Exec(s, [Start(t, Disable), Start(u, Plain)]).value, xs, m)
    ensures Enabled(m, Run(t)) && s' == Next(m, Run(t))
    ensures NoneReturns(s', u, t)
  {
    hide Sound, Leads, Token, Exec, NoneReturns, AllPolite;
    IdleFacts(n, acts, s);
    var s1 := Next(s, Start(t, Disable));
    StartsCall(s, t, Disable);
    StartsCall(s1, u, Plain);
    TwoSteps(s, Start(t, Disable), Start(u, Plain));
    xs, m := Awaits(Next(s1, Start(u, Plain)), u);
    s' := Next(m, Run(t));
    hide Next, Enabled;
    Strands(m, t, u, s');
  }

  lemma TwoSteps(s: State, a: Action, b: Action)
    requires Enabled(s, a) && Enabled(Next(s, a), b)
    ensures Exec(s, [a, b]) == Some(Next(Next(s, a), b))
  {
    hide Next, Enabled;
    assert [a][..0] == [];
    ExecAppend(s, [a], [b]);
    assert [b][..0] == [] && [a] + [b] == [a, b];
  }

  // ---- The states these start from are reached ----

  /** A polite run that ends with suspend enabled and nobody in a call. */
  lemma SuspendReached(n: nat) returns (acts: seq<Action>, s: State)
    requires n > 0
    ensures Exec(Init(n), acts) == Some(s) && AllPolite(Init(n), acts) && AllIdle(s) && s.host.suspend
  {
    hide Sound, Leads, Token, Exec, AllPolite, Init;
    var first, i := Start(0, Enable), Init(n);
    FirstStart(n, Enable);
    var s0 := Next(i, first);
    var more, m := Configures(i, 0);
    more, m := Flags(s0, more, m, 0);
    more, s := Go(s0, more, m, Run(0));
    assert s.callers == m.callers[0 := Idle];
    hide Next;
    LeadsPolitely(s0, more, s);
    PoliteThen(i, [first], s0, more);
    acts := [first] + more;
  }

  /** A polite run that ends with suspend disabled, nobody in a call, and a wait timed out. */
  lemma TimeoutReached(n: nat) returns (acts: seq<Action>, s: State)
    requires n > 0
    ensures Exec(Init(n), acts) == Some(s) && AllPolite(Init(n), acts) && AllIdle(s)
    ensures !s.host.suspend && s.log.timeouts > 0
  {
    hide Sound, Leads, Token, Exec, AllPolite, Init, Next;
    var first, i := Start(0, Plain), Init(n);
    FirstStart(n, Plain);
    var s0 := Next(i, first);
    Stay(s0);
    var more, m := Rises(s0, [], s0, 0, Plain);
    more, m := Sends(s0, more, m, 0, Plain);
    s := GivesUp(m, 0);
    LeadsPolitely(s0, more, m);
    PoliteThen(i, [first], s0, more);
    PoliteThen(i, [first] + more, m, [Timeout(0), Run(0)]);
    acts := [first] + more + [Timeout(0), Run(0)];
  }

  /** A wait times out, and the call returns. */
  lemma GivesUp(m: State, t: nat) returns (s: State)
    requires t < |m.callers| && m.callers[t].Sent? && m.callers[t].job == Plain && m.host.sem == 0
    ensures Exec(m, [Timeout(t), Run(t)]) == Some(s) && AllPolite(m, [Timeout(t), Run(t)])
    ensures s.callers == m.callers[t := Idle] && s.host.suspend == m.host.suspend && s.host.mutex == None
    ensures s.log.timeouts == m.log.timeouts + 1
  {
    hide Exec, AllPolite;
    var m1 := Next(m, Timeout(t));
    s := Next(m1, Run(t));
    PoliteOne(m, Timeout(t));
    PoliteOne(m1, Run(t));
    PoliteThen(m, [Timeout(t)], m1, [Run(t)]);
    assert [Timeout(t)] + [Run(t)] == [Timeout(t), Run(t)];
    assert s.callers == m.callers[t := Idle];
  }
}
