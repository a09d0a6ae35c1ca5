/**
 * Progress: no deadlock, and every call returns.
 */
module HioProgress {
  import opened Wrappers
  import opened HioProtocol
  import opened HioResponses
  import opened HioSleep

  /** Steps other than starting a call, giving up on one, or an unrelated indication. */
  predicate Progress(a: Action) {
    !a.Start? && !a.Timeout? && !a.Chatter?
  }

  /** With a call in progress somebody can always move. */
  lemma NoDeadlock(n: nat, acts: seq<Action>, s: State, t: nat) returns (a: Action)
    requires Exec(Init(n), acts) == Some(s) && AllPolite(Init(n), acts) && t < |s.callers| && s.callers[t] != Idle
    ensures Progress(a) && Enabled(s, a)
  {
    SoundRuns(n, acts, s);
    var h := OrderlyRuns(n, acts, s);
    if Enabled(s, Read) {
      a := Read;
    } else if Enabled(s, Take) {
      a := Take;
    } else if Enabled(s, Answer) {
      a := Answer;
    } else if Enabled(s, Wake) {
      a := Wake;
    } else if h == -1 {
      assert forall i :: 0 <= i < |s.callers| ==> !HoldsMutex(s.callers[i]);
      a := Run(t);
    } else {
      a := Run(h);
      QuietHolder(s, h);
    }
  }

  /** When the link, the reader and the device are idle, the active thread is not blocked. */
  lemma QuietHolder(s: State, h: int)
    requires Sound(s) && Orderly(s, h) && 0 <= h
    requires !Enabled(s, Read) && !Enabled(s, Take) && !Enabled(s, Answer) && !Enabled(s, Wake)
    ensures CallerEnabled(s, s.callers[h])
  {
    var pc := s.callers[h];
    if pc.Sent? {
      assert Holder(s) == pc;
    }
  }

  const NAP := 4

  /** Steps that a thread may still take, with everything they cause. */
  function Cost(pc: Pc): nat {
    var tail := if (HoldsMutex(pc) || pc.Begin?) && pc.job == Enable then 2 + NAP else 0;
    match pc
    case Idle => 0
    case Begin(_) => tail + 16 + NAP
    case Locked(_) => tail + 15 + NAP
    case Cleared(_) => tail + 14 + NAP
    case Waiting(_) => tail + 13 + NAP
    case Ready(_) => tail + 12 + NAP
    case Counted(_) => tail + 11 + NAP
    case Sent(_, _) => tail + 3
    case Popping(_, _) => tail + 2
    case Returning(_, _, _) => tail + 1
    case SetFlag => 2 + NAP
    case FirstSleep => 1 + NAP
    case DisTest => 20 + NAP
    case DisCleared => 19 + NAP
    case DisWaiting => 18 + NAP
    case DisFlag => 17 + NAP
  }

  function Costs(pcs: seq<Pc>): nat {
    if pcs == [] then 0 else Cost(pcs[0]) + Costs(pcs[1..])
  }

  function UpCost(up: seq<Up>): nat {
    if up == [] then 0 else (if up[0].Sleep? then NAP else 7 + NAP) + UpCost(up[1..])
  }

  function DownCost(down: seq<Down>): nat {
    if down == [] then 0
    else (match down[0] case Rsp(_) => 5 + NAP case Wakeup => 2 case Other => 1) + DownCost(down[1..])
  }

  function ReaderCost(r: Reader): nat {
    match r
    case RIdle => 0
    case RWake => 1
    case RRsp(_) => 4 + NAP
    case RSleep(_) => 3 + NAP
    case RQueue(_) => 2
    case RPost => 1
  }

  /** A bound on the progress steps that are left. */
  function Rank(s: State): nat {
    Costs(s.callers) + ReaderCost(s.reader) + UpCost(s.dev.up) + DownCost(s.dev.down)
    + (6 + NAP) * |s.dev.todo| + (if s.dev.dozing then NAP - 1 else 0)
  }

  lemma {:induction false} CostsUpdate(pcs: seq<Pc>, t: nat, pc: Pc)
    requires t < |pcs|
    ensures Costs(pcs[t := pc]) == Costs(pcs) - Cost(pcs[t]) + Cost(pc)
  {
    hide Cost;
    if t == 0 {
      assert pcs[t := pc][1..] == pcs[1..];
    } else {
      CostsUpdate(pcs[1..], t - 1, pc);
      assert pcs[t := pc][1..] == pcs[1..][t - 1 := pc];
    }
  }

  lemma {:induction false} UpCostSnoc(up: seq<Up>, u: Up)
    ensures UpCost(up + [u]) == UpCost(up) + if u.Sleep? then NAP else 7 + NAP
  {
    if up == [] {
      assert up + [u] == [u];
    } else {
      UpCostSnoc(up[1..], u);
      assert (up + [u])[1..] == up[1..] + [u];
    }
  }

  lemma {:induction false} DownCostSnoc(down: seq<Down>, d: Down)
    ensures DownCost(down + [d]) == DownCost(down) + match d case Rsp(_) => 5 + NAP case Wakeup => 2 case Other => 1
  {
    if down == [] {
      assert down + [d] == [d];
    } else {
      DownCostSnoc(down[1..], d);
      assert (down + [d])[1..] == down[1..] + [d];
    }
  }

  /** What a step of a thread adds to the link, and where it leaves the thread, is paid for. */
  lemma RankRun(s: State, t: nat)
    requires Enabled(s, Run(t))
    ensures Rank(CallerStep(s, t)) < Rank(s)
  {
    hide Costs, UpCost, DownCost, ReaderCost;
    var pc := s.callers[t];
    CostsUpdate(s.callers, t, Successor(s, pc));
    if pc.Counted? {
      UpCostSnoc(s.dev.up, Req(s.host.trxid));
    } else if pc == FirstSleep {
      UpCostSnoc(s.dev.up, Sleep);
    } else {
      EffectOffLink(s, t, pc);
      hide Effect;
      SuccessorCheaper(s, pc);
    }
  }

  lemma EffectOffLink(s: State, t: nat, pc: Pc)
    requires !pc.Counted? && pc != FirstSleep
    ensures Effect(s, t, pc).dev == s.dev && Effect(s, t, pc).reader == s.reader
  {
  }

  lemma SuccessorCheaper(s: State, pc: Pc)
    requires pc != Idle
    ensures Cost(Successor(s, pc)) < Cost(pc)
  {
  }

  lemma RankRead(s: State)
    requires Enabled(s, Read)
    ensures Rank(ReaderStep(s)) < Rank(s)
  {
    hide Costs;
    match s.reader
    case RSleep(_) => UpCostSnoc(s.dev.up, Sleep); hide UpCost, DownCost;
    case RIdle => hide UpCost;
    case _ => hide UpCost, DownCost;
  }

  /** Every progress step uses up some of what is left. */
  lemma RankDecreases(s: State, a: Action)
    requires Enabled(s, a) && Progress(a)
    ensures Rank(Next(s, a)) < Rank(s)
  {
    match a
    case Run(t) => RankRun(s, t);
    case Read => RankRead(s);
    case Take =>
    case Answer => DownCostSnoc(s.dev.down, Rsp(s.dev.todo[0]));
    case Wake => DownCostSnoc(s.dev.down, Wakeup);
  }

  lemma {:induction false} ExecAppend(s: State, xs: seq<Action>, ys: seq<Action>)
    requires Exec(s, xs).Some?
    ensures Exec(s, xs + ys) == Exec(Exec(s, xs).value, ys)
  {
    if ys == [] {
      assert xs + ys == xs;
    } else {
      ExecAppend(s, xs, ys[..|ys| - 1]);
      assert (xs + ys)[..|xs + ys| - 1] == xs + ys[..|ys| - 1];
    }
  }

  lemma {:induction false} RankRuns(s: State, more: seq<Action>, s': State)
    requires Exec(s, more) == Some(s') && forall k :: 0 <= k < |more| ==> Progress(more[k])
    ensures |more| + Rank(s') <= Rank(s)
  {
    hide Rank, Next;
    if more != [] {
      var k := |more| - 1;
      RankRuns(s, more[..k], Exec(s, more[..k]).value);
      RankDecreases(Exec(s, more[..k]).value, more[k]);
    }
  }

  /**
   * Every call returns. From any state of a polite run, at most `Rank` progress steps can follow in
   * whatever order, and when none is possible any more every thread is back out of its call.
   */
  lemma CallsReturn(n: nat, acts: seq<Action>, s: State, more: seq<Action>, s': State)
    requires Exec(Init(n), acts) == Some(s) && AllPolite(Init(n), acts)
    requires Exec(s, more) == Some(s') && forall k :: 0 <= k < |more| ==> Progress(more[k])
    ensures |more| <= Rank(s)
    ensures (forall a :: Progress(a) ==> !Enabled(s', a)) ==> forall t :: 0 <= t < |s'.callers| ==> s'.callers[t] == Idle
  {
    RankRuns(s, more, s');
    ExecAppend(Init(n), acts, more);
    PoliteAppend(n, acts, more);
    forall t | (forall a :: Progress(a) ==> !Enabled(s', a)) && 0 <= t < |s'.callers| ensures s'.callers[t] == Idle {
      if s'.callers[t] != Idle {
        var a := NoDeadlock(n, acts + more, s', t);
        assert false;
      }
    }
  }

  lemma PoliteAppend(n: nat, acts: seq<Action>, more: seq<Action>)
    requires AllPolite(Init(n), acts) && forall k :: 0 <= k < |more| ==> Progress(more[k])
    ensures AllPolite(Init(n), acts + more)
  {
    var all := acts + more;
    forall k | 0 <= k < |all| && Exec(Init(n), all[..k]).Some? ensures Polite(Exec(Init(n), all[..k]).value, all[k]) {
      if k < |acts| {
        assert all[..k] == acts[..k];
      } else {
        assert all[k] == more[k - |acts|];
      }
    }
  }
}
