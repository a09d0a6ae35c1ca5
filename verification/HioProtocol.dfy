/**
 * The host I/O protocol as a state machine: any number of threads in `call`, the reader thread, and a
 * device that may doze. A step is one access to the state they share, except that the test of the suspend
 * flag in target_wakeup and target_sleep is joined with the access after it; a run is any interleaving.
 *
 * The device answers requests in order, and tells the host that it woke when the break line is asserted
 * while it dozes. It may emit other indications at any time.
 */
module HioProtocol {
  import opened Wrappers

  const TRX := 0x10000

  datatype Up = Req(trx: nat) | Sleep
  datatype Down = Rsp(trx: nat) | Wakeup | Other

  /** Why a thread is in `call`: on its own account, or within enable_suspend(True) or (False). */
  datatype Job = Plain | Enable | Disable

  datatype Pc =
    | Idle
    | Begin(job: Job)                 // about to take the call mutex
    | Locked(job: Job)                // mutex held; target_wakeup looks at the suspend flag
    | Cleared(job: Job)               // wakeup event cleared; about to assert break
    | Waiting(job: Job)               // break asserted; waits for the wakeup event
    | Ready(job: Job)                 // target_wakeup has returned
    | Counted(job: Job)               // pending counter incremented
    | Sent(job: Job, trx: nat)        // request written; waits on the response semaphore
    | Popping(job: Job, trx: nat)     // semaphore acquired; about to take a response off the queue
    | Returning(job: Job, trx: nat, rsp: Option<nat>)  // about to release the mutex
    | SetFlag                         // enable_suspend(True): the config call has returned
    | FirstSleep                      // flag set; target_sleep comes next
    | DisTest                         // enable_suspend(False): target_wakeup looks at the flag
    | DisCleared
    | DisWaiting
    | DisFlag                         // about to clear the flag

  datatype Reader =
    | RIdle
    | RWake               // a wakeup indication has been read
    | RRsp(trx: nat)      // a response has been read; about to decrement the pending counter
    | RSleep(trx: nat)    // the counter reached zero; target_sleep comes next
    | RQueue(trx: nat)    // about to append the response to the queue
    | RPost               // about to release the semaphore

  /** What the host's threads share. */
  datatype Host = Host(mutex: Option<nat>, suspend: bool, pending: int, event: bool, brk: bool,
                       sem: nat, queue: seq<nat>, trxid: nat)

  /** The two directions of the link, whether the device may doze, and the requests it has not answered. */
  datatype Device = Device(up: seq<Up>, down: seq<Down>, dozing: bool, todo: seq<nat>)

  /**
   * What has happened: requests written, responses queued, successful waits, waits that timed out, and
   * whether a wakeup indication has been handled since the last sleep request was written.
   */
  datatype Log = Log(sent: seq<nat>, got: seq<nat>, taken: nat, timeouts: nat, awakened: bool)

  datatype State = State(callers: seq<Pc>, reader: Reader, host: Host, dev: Device, log: Log)

  datatype Action = Start(t: nat, job: Job) | Run(t: nat) | Timeout(t: nat) | Read | Take | Answer | Wake | Chatter

  function Init(n: nat): State {
    State(seq(n, _ => Idle), RIdle, Host(None, false, 0, false, false, 0, [], 0),
          Device([], [], false, []), Log([], [], 0, 0, false))
  }

  predicate CallerEnabled(s: State, pc: Pc) {
    match pc
    case Idle => false
    case Begin(_) => s.host.mutex == None
    case Waiting(_) => s.host.event
    case DisWaiting => s.host.event
    case Sent(_, _) => s.host.sem > 0
    case _ => true
  }

  predicate Enabled(s: State, a: Action) {
    match a
    case Start(t, _) => t < |s.callers| && s.callers[t] == Idle
    case Run(t) => t < |s.callers| && CallerEnabled(s, s.callers[t])
    case Timeout(t) => t < |s.callers| && s.callers[t].Sent? && s.callers[t].job == Plain && s.host.sem == 0
    case Read => s.reader != RIdle || s.dev.down != []
    case Take => s.dev.up != []
    case Answer => s.dev.todo != []
    case Wake => s.dev.dozing && s.host.brk
    case Chatter => true
  }

  function WriteSleep(s: State): State {
    if s.host.suspend then s.(dev := s.dev.(up := s.dev.up + [Sleep]), log := s.log.(awakened := false)) else s
  }

  function At(s: State, t: nat, pc: Pc): State
    requires t < |s.callers|
  {
    s.(callers := s.callers[t := pc])
  }

  /** What a step of thread `t` at `pc` does to the state it shares. */
  function Effect(s: State, t: nat, pc: Pc): State {
    var h := s.host;
    match pc
    case Begin(_) => s.(host := h.(mutex := Some(t)))
    case Locked(_) => if h.suspend then s.(host := h.(event := false)) else s
    case Cleared(_) => s.(host := h.(brk := true))
    case Waiting(_) => s.(host := h.(brk := false))
    case Ready(_) => s.(host := h.(pending := h.pending + 1))
    case Counted(_) =>
      s.(host := h.(trxid := (h.trxid + 1) % TRX), dev := s.dev.(up := s.dev.up + [Req(h.trxid)]),
         log := s.log.(sent := s.log.sent + [h.trxid]))
    case Sent(_, _) => s.(host := h.(sem := if h.sem > 0 then h.sem - 1 else 0))
    case Popping(_, _) =>
      if h.queue == [] then s
      else s.(host := h.(queue := h.queue[1..]), log := s.log.(taken := s.log.taken + 1))
    case Returning(_, _, _) => s.(host := h.(mutex := None))
    case SetFlag => s.(host := h.(suspend := true))
    case FirstSleep => WriteSleep(s)
    case DisTest => if h.suspend then s.(host := h.(event := false)) else s
    case DisCleared => s.(host := h.(brk := true))
    case DisWaiting => s.(host := h.(brk := false))
    case DisFlag => s.(host := h.(suspend := false))
    case Idle => s
  }

  /** Where a step takes a thread. */
  function Successor(s: State, pc: Pc): Pc {
    match pc
    case Idle => Idle
    case Begin(job) => Locked(job)
    case Locked(job) => if s.host.suspend then Cleared(job) else Ready(job)
    case Cleared(job) => Waiting(job)
    case Waiting(job) => Ready(job)
    case Ready(job) => Counted(job)
    case Counted(job) => Sent(job, s.host.trxid)
    case Sent(job, trx) => Popping(job, trx)
    case Popping(job, trx) => Returning(job, trx, if s.host.queue == [] then None else Some(s.host.queue[0]))
    case Returning(job, _, _) => if job == Enable then SetFlag else Idle
    case SetFlag => FirstSleep
    case FirstSleep => Idle
    case DisTest => if s.host.suspend then DisCleared else DisFlag
    case DisCleared => DisWaiting
    case DisWaiting => DisFlag
    case DisFlag => Begin(Disable)
  }

  /** One step of thread `t`. */
  function CallerStep(s: State, t: nat): State
    requires t < |s.callers|
  {
    Effect(s, t, s.callers[t]).(callers := s.callers[t := Successor(s, s.callers[t])])
  }

  /** One step of the reader thread. */
  function ReaderStep(s: State): State {
    var h := s.host;
    match s.reader
    case RIdle =>
      if s.dev.down == [] then s
      else
        var rest := s.(dev := s.dev.(down := s.dev.down[1..]));
        (match s.dev.down[0]
         case Rsp(trx) => rest.(reader := RRsp(trx))
         case Wakeup => rest.(reader := RWake)
         case Other => rest)
    case RWake => s.(host := h.(event := true), log := s.log.(awakened := true), reader := RIdle)
    case RRsp(trx) =>
      s.(host := h.(pending := h.pending - 1), reader := if h.pending == 1 then RSleep(trx) else RQueue(trx))
    case RSleep(trx) => WriteSleep(s).(reader := RQueue(trx))
    case RQueue(trx) =>
      s.(host := h.(queue := h.queue + [trx]), log := s.log.(got := s.log.got + [trx]), reader := RPost)
    case RPost => s.(host := h.(sem := h.sem + 1), reader := RIdle)
  }

  /** The device takes the next message off the link. */
  function TakeStep(s: State): State
    requires s.dev.up != []
  {
    var d := s.dev.(up := s.dev.up[1..]);
    match s.dev.up[0]
    case Req(trx) => s.(dev := d.(todo := d.todo + [trx]))
    case Sleep => s.(dev := d.(dozing := true))
  }

  function Next(s: State, a: Action): State
    requires Enabled(s, a)
  {
    match a
    case Start(t, job) => At(s, t, if job == Disable then DisTest else Begin(job))
    case Run(t) => CallerStep(s, t)
    case Timeout(t) => At(s.(log := s.log.(timeouts := s.log.timeouts + 1)), t, Returning(Plain, s.callers[t].trx, None))
    case Read => ReaderStep(s)
    case Take => TakeStep(s)
    case Answer => s.(dev := s.dev.(todo := s.dev.todo[1..], down := s.dev.down + [Rsp(s.dev.todo[0])]))
    case Wake => s.(dev := s.dev.(dozing := false, down := s.dev.down + [Wakeup]))
    case Chatter => s.(dev := s.dev.(down := s.dev.down + [Other]))
  }

  /** The state that `acts` leads to, or `None` if one of them cannot be taken. */
  function Exec(s: State, acts: seq<Action>): Option<State> {
    if acts == [] then Some(s)
    else
      match Exec(s, acts[..|acts| - 1])
      case None => None
      case Some(s') => if Enabled(s', acts[|acts| - 1]) then Some(Next(s', acts[|acts| - 1])) else None
  }
}
