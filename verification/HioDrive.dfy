/**
 * Driving the protocol: stretches of a run that are possible from every state of a certain kind. They are
 * what the counterexamples in `HioRaces` are made of.
 */
module HioDrive {
  import opened Wrappers
  import opened HioProtocol
  import opened HioResponses
  import opened HioSleep
  import opened HioProgress

  /** `acts` lead from `s0` to `s`: steps of threads, reader and device, and nothing else. */
  ghost predicate Leads(s0: State, acts: seq<Action>, s: State) {
    Exec(s0, acts) == Some(s) && forall k :: 0 <= k < |acts| ==> Progress(acts[k])
  }

  lemma Stay(s: State)
    ensures Leads(s, [], s)
  {
  }

  lemma Go(s0: State, acts: seq<Action>, s: State, a: Action) returns (more: seq<Action>, s': State)
    requires Leads(s0, acts, s) && Progress(a) && Enabled(s, a)
    ensures s' == Next(s, a) && Leads(s0, more, s')
  {
    more, s' := acts + [a], Next(s, a);
    assert more[..|acts|] == acts;
    hide Next, Enabled;
  }

  // ---- Nothing in flight ----

  predicate Drained(s: State) {
    s.reader == RIdle && s.dev.up == [] && s.dev.down == [] && s.dev.todo == []
  }

  /** Reader and device leave this alone. */
  predicate SameCallers(s: State, s': State) {
    && s'.callers == s.callers && s'.host.mutex == s.host.mutex && s'.host.suspend == s.host.suspend
    && s'.log.timeouts == s.log.timeouts
  }

  lemma DrainFrame(s: State, a: Action)
    requires Enabled(s, a) && (a == Read || a == Take || a == Answer)
    ensures SameCallers(s, Next(s, a))
  {
  }

  lemma DrainStep(s: State, a: Action)
    requires Enabled(s, a) && (a == Read || a == Take || a == Answer) && Sound(s)
    ensures Sound(Next(s, a)) && SameCallers(s, Next(s, a))
    ensures Token(s, Idle) ==> Token(Next(s, a), Idle)
  {
    hide Sound, Token;
    SoundNext(s, a);
    DrainFrame(s, a);
    hide SameCallers;
    if Token(s, Idle) {
      match a
      case Take => TokenTake(s, Idle);
      case Answer => TokenAnswer(s, Idle);
      case Read =>
        match s.reader
        case RIdle => TokenRIdle(s, Idle);
        case RSleep(_) => TokenRSleep(s, Idle);
        case _ => TokenHandled(s, Idle);
    }
  }

  /** Whatever is in flight arrives. */
  lemma {:induction false} Drain(s0: State, acts: seq<Action>, s: State) returns (more: seq<Action>, s': State)
    requires Leads(s0, acts, s) && Sound(s)
    ensures Leads(s0, more, s') && Sound(s') && Drained(s') && SameCallers(s, s')
    ensures Token(s, Idle) ==> Token(s', Idle)
    decreases Rank(s)
  {
    hide Leads, Sound, Token, Rank, Next;
    if Drained(s) {
      more, s' := acts, s;
    } else {
      var a := if s.reader != RIdle || s.dev.down != [] then Read else if s.dev.up != [] then Take else Answer;
      DrainStep(s, a);
      RankDecreases(s, a);
      more, s' := Go(s0, acts, s, a);
      more, s' := Drain(s0, more, s');
    }
  }

  /** What the books say when nothing is in flight and nobody is in a call. */
  lemma AtRest(s: State)
    requires Drained(s) && s.host.mutex == None
    ensures Sound(s) ==> s.host.sem == |s.host.queue| == s.log.timeouts
    ensures Token(s, Idle) ==> s.host.pending == 0 && s.dev.dozing == s.host.suspend
  {
  }

  // ---- One call ----

  /** With suspend enabled, a call asserts the break line and waits. */
  lemma Breaks(s0: State, acts: seq<Action>, s: State, t: nat, job: Job) returns (more: seq<Action>, s': State)
    requires Leads(s0, acts, s) && t < |s.callers| && s.callers[t] == Begin(job) && s.host.mutex == None
    requires s.host.suspend
    ensures Leads(s0, more, s')
    ensures s' == s.(callers := s.callers[t := Waiting(job)],
                     host := s.host.(mutex := Some(t), event := false, brk := true))
  {
    hide Leads;
    var cs := s.callers;
    more, s' := Go(s0, acts, s, Run(t));
    assert s' == s.(callers := cs[t := Locked(job)], host := s.host.(mutex := Some(t)));
    more, s' := Go(s0, more, s', Run(t));
    assert cs[t := Locked(job)][t := Cleared(job)] == cs[t := Cleared(job)];
    assert s' == s.(callers := cs[t := Cleared(job)], host := s.host.(mutex := Some(t), event := false));
    more, s' := Go(s0, more, s', Run(t));
    assert cs[t := Cleared(job)][t := Waiting(job)] == cs[t := Waiting(job)];
  }

  /** A dozing device wakes and says so. */
  lemma Rouses(s0: State, acts: seq<Action>, s: State) returns (more: seq<Action>, s': State)
    requires Leads(s0, acts, s) && s.host.brk && s.dev.dozing && Drained(s)
    ensures Leads(s0, more, s')
    ensures s' == s.(host := s.host.(event := true), dev := s.dev.(dozing := false), log := s.log.(awakened := true))
  {
    hide Leads;
    more, s' := Go(s0, acts, s, Wake);
    assert s' == s.(dev := s.dev.(dozing := false, down := [Wakeup]));
    more, s' := Go(s0, more, s', Read);
    assert s' == s.(dev := s.dev.(dozing := false), reader := RWake);
    more, s' := Go(s0, more, s', Read);
  }

  /** With suspend enabled, a call gets as far as the wakeup event, which the device then causes. */
  lemma Wakes(s0: State, acts: seq<Action>, s: State, t: nat, job: Job) returns (more: seq<Action>, s': State)
    requires Leads(s0, acts, s) && t < |s.callers| && s.callers[t] == Begin(job) && s.host.mutex == None
    requires s.host.suspend && Drained(s) && s.dev.dozing
    ensures Leads(s0, more, s')
    ensures s' == State(s.callers[t := Waiting(job)], RIdle,
                        s.host.(mutex := Some(t), event := true, brk := true),
                        s.dev.(dozing := false), s.log.(awakened := true))
  {
    hide Leads;
    more, s' := Breaks(s0, acts, s, t, job);
    more, s' := Rouses(s0, more, s');
  }

  /** What a call that is about to write its request has left as it was. */
  predicate SameBooks(s: State, s': State) {
    && s'.host.suspend == s.host.suspend && s'.host.pending == s.host.pending && s'.host.sem == s.host.sem
    && s'.host.queue == s.host.queue
  }

  /** With suspend enabled or not, a call gets through target_wakeup. */
  lemma Rises(s0: State, acts: seq<Action>, s: State, t: nat, job: Job) returns (more: seq<Action>, s': State)
    requires Leads(s0, acts, s) && t < |s.callers| && s.callers[t] == Begin(job) && s.host.mutex == None
    requires Drained(s) && (s.host.suspend ==> s.dev.dozing)
    ensures Leads(s0, more, s')
    ensures s'.callers == s.callers[t := Ready(job)] && s'.host.mutex == Some(t) && Drained(s') && SameBooks(s, s')
  {
    hide Leads;
    var cs := s.callers;
    if s.host.suspend {
      more, s' := Wakes(s0, acts, s, t, job);
      more, s' := Go(s0, more, s', Run(t));
      assert cs[t := Waiting(job)][t := Ready(job)] == cs[t := Ready(job)];
    } else {
      more, s' := Go(s0, acts, s, Run(t));
      assert s' == s.(callers := cs[t := Locked(job)], host := s.host.(mutex := Some(t)));
      more, s' := Go(s0, more, s', Run(t));
      assert cs[t := Locked(job)][t := Ready(job)] == cs[t := Ready(job)];
    }
  }

  /** It writes its request. */
  lemma Sends(s0: State, acts: seq<Action>, s: State, t: nat, job: Job) returns (more: seq<Action>, s': State)
    requires Leads(s0, acts, s) && t < |s.callers| && s.callers[t] == Ready(job)
    ensures Leads(s0, more, s')
    ensures s'.callers == s.callers[t := Sent(job, s.host.trxid)]
    ensures s'.host == s.host.(pending := s.host.pending + 1, trxid := (s.host.trxid + 1) % TRX)
    ensures s'.dev == s.dev.(up := s.dev.up + [Req(s.host.trxid)]) && s'.reader == s.reader
  {
    hide Leads;
    var cs := s.callers;
    more, s' := Go(s0, acts, s, Run(t));
    assert s' == s.(callers := cs[t := Counted(job)], host := s.host.(pending := s.host.pending + 1));
    more, s' := Go(s0, more, s', Run(t));
    assert cs[t := Counted(job)][t := Sent(job, s.host.trxid)] == cs[t := Sent(job, s.host.trxid)];
  }

  /** The only outstanding request is answered. */
  lemma Delivered(s0: State, acts: seq<Action>, s: State, x: nat) returns (more: seq<Action>, s': State)
    requires Leads(s0, acts, s) && s.reader == RIdle
    requires s.dev.up == [Req(x)] && s.dev.down == [] && s.dev.todo == []
    ensures Leads(s0, more, s') && s' == s.(dev := s.dev.(up := []), reader := RRsp(x))
  {
    hide Leads;
    more, s' := Go(s0, acts, s, Take);
    var d := s.dev.(up := []);
    assert s' == s.(dev := d.(todo := [x]));
    more, s' := Go(s0, more, s', Answer);
    assert s' == s.(dev := d.(down := [Rsp(x)]));
    more, s' := Go(s0, more, s', Read);
  }

  /** The last response is queued, after a sleep request if suspend is enabled. */
  lemma Answered(s0: State, acts: seq<Action>, s: State, x: nat) returns (more: seq<Action>, s': State)
    requires Leads(s0, acts, s) && s.reader == RIdle && s.host.pending == 1
    requires s.dev.up == [Req(x)] && s.dev.down == [] && s.dev.todo == []
    ensures Leads(s0, more, s')
    ensures s'.callers == s.callers && s'.reader == RIdle
    ensures s'.host == s.host.(pending := 0, queue := s.host.queue + [x], sem := s.host.sem + 1)
    ensures s'.dev == s.dev.(up := if s.host.suspend then [Sleep] else [])
  {
    hide Leads;
    more, s' := Delivered(s0, acts, s, x);
    more, s' := Go(s0, more, s', Read);
    var r := s.(dev := s.dev.(up := []), host := s.host.(pending := 0), reader := RSleep(x));
    assert s' == r;
    more, s' := Go(s0, more, s', Read);
    assert s' == WriteSleep(r).(reader := RQueue(x));
    more, s' := Go(s0, more, s', Read);
    more, s' := Go(s0, more, s', Read);
  }

  /** The config call of enable_suspend(True) takes the first response on the queue and returns. */
  lemma Collects(s0: State, acts: seq<Action>, s: State, t: nat) returns (more: seq<Action>, s': State)
    requires Leads(s0, acts, s) && t < |s.callers| && s.callers[t].Sent? && s.callers[t].job == Enable
    requires s.host.sem > 0 && s.host.queue != []
    ensures Leads(s0, more, s')
    ensures s'.callers == s.callers[t := SetFlag] && s'.dev == s.dev && s'.reader == s.reader
    ensures s'.host == s.host.(mutex := None, sem := s.host.sem - 1, queue := s.host.queue[1..])
  {
    hide Leads;
    var cs, trx := s.callers, s.callers[t].trx;
    more, s' := Go(s0, acts, s, Run(t));
    assert s' == s.(callers := cs[t := Popping(Enable, trx)], host := s.host.(sem := s.host.sem - 1));
    more, s' := Go(s0, more, s', Run(t));
    var back := Returning(Enable, trx, Some(s.host.queue[0]));
    assert cs[t := Popping(Enable, trx)][t := back] == cs[t := back];
    assert s'.callers == cs[t := back];
    more, s' := Go(s0, more, s', Run(t));
    assert cs[t := back][t := SetFlag] == cs[t := SetFlag];
  }

  /** It sets the flag, with the first sleep request next. */
  lemma Flags(s0: State, acts: seq<Action>, s: State, t: nat) returns (more: seq<Action>, s': State)
    requires Leads(s0, acts, s) && t < |s.callers| && s.callers[t] == SetFlag
    ensures Leads(s0, more, s')
    ensures s' == s.(callers := s.callers[t := FirstSleep], host := s.host.(suspend := true))
  {
    hide Leads;
    more, s' := Go(s0, acts, s, Run(t));
  }
}
