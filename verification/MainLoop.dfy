/**
 src/persistence_client_library_dbus_service.c: handing commands to the main loop.

 Any number of threads in deliverToMainloop and the one main loop, as atomic steps that may interleave in any order:
 the pipe, the two mutexes, the flag and the condition variable, whose waiters may also wake up for no reason.
 deliverToMainloop_NM is one more step, open to everybody at any time.
 */
module MainLoop {
  import opened Options

  type Cmd = int

  /** Where a thread is in deliverToMainloop; `k` is the place of its command in the order of all pipe writes. */
  datatype Pc =
    | Idle
    | Want(cmd: Cmd)               // before gDeliverpMtx
    | Holding(cmd: Cmd)            // holds gDeliverpMtx, before the pipe write
    | Written(cmd: Cmd, k: nat)    // before gMainCondMtx
    | Testing(cmd: Cmd, k: nat)    // holds gMainCondMtx, before the test of the flag
    | Waiting(cmd: Cmd, k: nat)    // asleep in pthread_cond_wait, gMainCondMtx released
    | Woken(cmd: Cmd, k: nat)      // woken up, before gMainCondMtx is taken again
    | Leaving(cmd: Cmd, k: nat)    // has seen the flag, still holds gMainCondMtx
    | Resetting(cmd: Cmd, k: nat)  // before gMainLoopCondValue = 0
    | Releasing(cmd: Cmd, k: nat)  // before gDeliverpMtx is released
  {
    /** Holds gDeliverpMtx. */
    predicate InCall() {
      !Idle? && !Want?
    }

    predicate InWait() {
      Written? || Testing? || Waiting? || Woken?
    }

    predicate Posted() {
      InWait() || Leaving? || Resetting? || Releasing?
    }
  }

  datatype LoopPc =
    | Polling
    | Read(cmd: Cmd)    // has read a command, before gMainCondMtx
    | Locked(cmd: Cmd)  // holds gMainCondMtx, before the dispatch
    | Dispatched        // before gMainLoopCondValue = 1
    | Flagged           // before pthread_cond_signal
    | Signalled         // before gMainCondMtx is released
  {
    predicate InLock() {
      !Polling? && !Read?
    }

    function InHand(): seq<Cmd> {
      if Read? || Locked? then [cmd] else []
    }
  }

  datatype Owner = Thread(t: nat) | Loop

  datatype State = State(
    threads: seq<Pc>,
    deliver: Option<nat>,     // owner of gDeliverpMtx
    cond: Option<Owner>,      // owner of gMainCondMtx
    flag: bool,               // gMainLoopCondValue
    pipe: seq<Cmd>,
    loop: LoopPc,
    written: seq<Cmd>,        // every command written to the pipe so far
    dispatched: seq<Cmd>)     // every command dispatched so far

  datatype Step =
    | Call(t: nat, cmd: Cmd) | LockDeliver(t: nat) | WritePipe(t: nat) | LockCond(t: nat) | Test(t: nat)
    | Spurious(t: nat) | UnlockCond(t: nat) | Reset(t: nat) | Return(t: nat)
    | ReadPipe | LoopLock | Dispatch | SetFlag | Signal(woken: set<nat>) | LoopUnlock
    | NmWrite(cmd: Cmd)

  predicate At(s: State, t: nat) {
    t < |s.threads|
  }

  function WaitingSet(threads: seq<Pc>): set<nat> {
    set t | 0 <= t < |threads| && threads[t].Waiting?
  }

  ghost predicate Enabled(s: State, st: Step) {
    match st
    case Call(t, _) => At(s, t) && s.threads[t].Idle?
    case LockDeliver(t) => At(s, t) && s.threads[t].Want? && s.deliver.None?
    case WritePipe(t) => At(s, t) && s.threads[t].Holding?
    case LockCond(t) => At(s, t) && (s.threads[t].Written? || s.threads[t].Woken?) && s.cond.None?
    case Test(t) => At(s, t) && s.threads[t].Testing?
    case Spurious(t) => At(s, t) && s.threads[t].Waiting?
    case UnlockCond(t) => At(s, t) && s.threads[t].Leaving?
    case Reset(t) => At(s, t) && s.threads[t].Resetting?
    case Return(t) => At(s, t) && s.threads[t].Releasing?
    case ReadPipe => s.loop.Polling? && s.pipe != []
    case LoopLock => s.loop.Read? && s.cond.None?
    case Dispatch => s.loop.Locked?
    case SetFlag => s.loop.Dispatched?
    case Signal(woken) =>  // wakes at least one waiter, if there are any
      s.loop.Flagged? && woken <= WaitingSet(s.threads) && (WaitingSet(s.threads) != {} ==> woken != {})
    case LoopUnlock => s.loop.Signalled?
    case NmWrite(_) => true
  }

  function Wake(threads: seq<Pc>, woken: set<nat>): (r: seq<Pc>)
    requires woken <= WaitingSet(threads)
    ensures |r| == |threads|
    ensures forall t :: 0 <= t < |r| ==> r[t] == if t in woken then Woken(threads[t].cmd, threads[t].k) else threads[t]
  {
    seq(|threads|, t requires 0 <= t < |threads| => if t in woken then Woken(threads[t].cmd, threads[t].k)
        else threads[t])
  }

  function Move(s: State, t: nat, pc: Pc): State
    requires At(s, t)
  {
    s.(threads := s.threads[t := pc])
  }

  ghost function Next(s: State, st: Step): State
    requires Enabled(s, st)
  {
    match st
    case Call(t, cmd) => Move(s, t, Want(cmd))
    case LockDeliver(t) => Move(s, t, Holding(s.threads[t].cmd)).(deliver := Some(t))
    case WritePipe(t) =>
      var c := s.threads[t].cmd;
      Move(s, t, Written(c, |s.written|)).(pipe := s.pipe + [c], written := s.written + [c])
    case LockCond(t) => Move(s, t, Testing(s.threads[t].cmd, s.threads[t].k)).(cond := Some(Thread(t)))
    case Test(t) =>
      if s.flag then Move(s, t, Leaving(s.threads[t].cmd, s.threads[t].k))
      else Move(s, t, Waiting(s.threads[t].cmd, s.threads[t].k)).(cond := None)
    case Spurious(t) => Move(s, t, Woken(s.threads[t].cmd, s.threads[t].k))
    case UnlockCond(t) => Move(s, t, Resetting(s.threads[t].cmd, s.threads[t].k)).(cond := None)
    case Reset(t) => Move(s, t, Releasing(s.threads[t].cmd, s.threads[t].k)).(flag := false)
    case Return(t) => Move(s, t, Idle).(deliver := None)
    case ReadPipe => s.(loop := Read(s.pipe[0]), pipe := s.pipe[1..])
    case LoopLock => s.(loop := Locked(s.loop.cmd), cond := Some(Loop))
    case Dispatch => s.(loop := Dispatched, dispatched := s.dispatched + [s.loop.cmd])
    case SetFlag => s.(loop := Flagged, flag := true)
    case Signal(woken) => s.(loop := Signalled, threads := Wake(s.threads, woken))
    case LoopUnlock => s.(loop := Polling, cond := None)
    case NmWrite(c) => s.(pipe := s.pipe + [c], written := s.written + [c])
  }

  function Start(n: nat): State {
    State(seq(n, _ => Idle), None, None, false, [], Polling, [], [])
  }

  ghost predicate CanRun(s: State, steps: seq<Step>)
    decreases |steps|
  {
    steps == [] || (Enabled(s, steps[0]) && CanRun(Next(s, steps[0]), steps[1..]))
  }

  ghost function Run(s: State, steps: seq<Step>): State
    requires CanRun(s, steps)
    decreases |steps|
  {
    if steps == [] then s else Run(Next(s, steps[0]), steps[1..])
  }

  // ---------- what always holds ----------

  /** Each mutex has at most the one owner whose program counter says so. */
  ghost predicate Mutexes(s: State) {
    && (forall t :: 0 <= t < |s.threads| ==> (s.threads[t].InCall() <==> s.deliver == Some(t)))
    && (forall t :: 0 <= t < |s.threads| ==>
        (s.threads[t].Testing? || s.threads[t].Leaving? <==> s.cond == Some(Thread(t))))
    && (s.loop.InLock() <==> s.cond == Some(Loop))
    && (s.deliver.Some? ==> At(s, s.deliver.value))
    && (s.cond.Some? && s.cond.value.Thread? ==> At(s, s.cond.value.t))
  }

  /** The pipe neither loses, repeats nor reorders anything. */
  ghost predicate Fifo(s: State) {
    s.written == s.dispatched + s.loop.InHand() + s.pipe
  }

  ghost predicate Ticket(s: State, pc: Pc) {
    pc.Posted() ==> pc.k < |s.written| && s.written[pc.k] == pc.cmd
  }

  ghost predicate Base(s: State) {
    Mutexes(s) && Fifo(s) && forall t :: 0 <= t < |s.threads| ==> Ticket(s, s.threads[t])
  }

  lemma MutexesCall(s: State, st: Step)
    requires Mutexes(s) && Enabled(s, st)
    requires st.Call? || st.LockDeliver? || st.WritePipe? || st.LockCond? || st.Test? || st.Spurious?
    ensures Mutexes(Next(s, st))
  {
  }

  lemma MutexesLoop(s: State, st: Step)
    requires Mutexes(s) && Enabled(s, st)
    requires st.ReadPipe? || st.LoopLock? || st.Dispatch? || st.SetFlag? || st.Signal? || st.LoopUnlock? || st.NmWrite?
    ensures Mutexes(Next(s, st))
  {
  }

  lemma MutexesStep(s: State, st: Step)
    requires Mutexes(s) && Enabled(s, st)
    ensures Mutexes(Next(s, st))
  {
    if st.Call? || st.LockDeliver? || st.WritePipe? || st.LockCond? || st.Test? || st.Spurious? {
      MutexesCall(s, st);
    } else if !st.UnlockCond? && !st.Reset? && !st.Return? {
      MutexesLoop(s, st);
    }
  }

  lemma FifoStep(s: State, st: Step)
    requires Fifo(s) && Enabled(s, st)
    ensures var r := Next(s, st); Fifo(r) && s.dispatched <= r.dispatched && s.written <= r.written
  {
  }

  lemma TicketsStep(s: State, st: Step)
    requires (forall t :: 0 <= t < |s.threads| ==> Ticket(s, s.threads[t])) && Enabled(s, st)
    ensures var r := Next(s, st); forall t :: 0 <= t < |r.threads| ==> Ticket(r, r.threads[t])
  {
    var r := Next(s, st);
    assert s.written <= r.written;
    forall t | 0 <= t < |r.threads| ensures Ticket(r, r.threads[t]) {
      assert Ticket(s, s.threads[t]);
    }
  }

  lemma BaseStep(s: State, st: Step)
    requires Base(s) && Enabled(s, st)
    ensures var r := Next(s, st); Base(r) && s.dispatched <= r.dispatched && s.written <= r.written
  {
    MutexesStep(s, st);
    FifoStep(s, st);
    TicketsStep(s, st);
  }

  /** Commands are dispatched once each and in the order in which they were written. */
  lemma {:induction false} BaseRun(s: State, steps: seq<Step>)
    requires Base(s) && CanRun(s, steps)
    ensures var r := Run(s, steps); Base(r) && s.dispatched <= r.dispatched <= r.written && s.written <= r.written
    decreases |steps|
  {
    if steps != [] {
      BaseStep(s, steps[0]);
      BaseRun(Next(s, steps[0]), steps[1..]);
    }
  }
}
