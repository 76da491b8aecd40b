/** What callers of deliverToMainloop can rely on: with no deliverToMainloop_NM about, and exactly how far with it. */
module MainLoopRuns {
  import opened Options
  import opened MainLoop

  // ---------- only blocking calls ----------

  ghost predicate Rest(s: State) {
    s.loop.Polling? && s.pipe == []
  }

  /**
   Between calls there is nothing left over: no command, no flag. During a call exactly that call's command is on its
   way, and the flag is set exactly from its dispatch to the reset. A thread asleep after that is about to be signalled.
   */
  ghost predicate Handoff(s: State) {
    match s.deliver
    case None => Rest(s) && !s.flag
    case Some(t) =>
      At(s, t) &&
      var pc := s.threads[t];
      if pc.Holding? || pc.Releasing? then Rest(s) && !s.flag
      else if pc.Leaving? || pc.Resetting? then Rest(s) && s.flag
      else
        && pc.InWait() && pc.k == |s.written| - 1
        && (match s.loop
            case Polling => s.pipe == if s.flag then [] else [pc.cmd]
            case Read(_) => s.pipe == [] && !s.flag
            case Locked(_) => s.pipe == [] && !s.flag
            case Dispatched => s.pipe == [] && !s.flag
            case _ => s.pipe == [] && s.flag)
        && (pc.Waiting? && s.flag ==> s.loop.Flagged?)
  }

  ghost predicate Inv(s: State) {
    Base(s) && Handoff(s)
  }

  /** pthread_cond_signal reaches the one caller who can be asleep. */
  lemma SignalWakes(s: State, st: Step, t: nat)
    requires Base(s) && Enabled(s, st) && st.Signal? && At(s, t) && s.threads[t].Waiting?
    ensures t in st.woken
  {
    assert t in WaitingSet(s.threads);
    var w :| w in st.woken;
    assert s.threads[w].InCall() && s.threads[t].InCall();
  }

  lemma HandoffCall(s: State, st: Step)
    requires Inv(s) && Enabled(s, st) && (st.Call? || st.LockDeliver? || st.WritePipe? || st.Reset? || st.Return?)
    ensures Handoff(Next(s, st))
  {
  }

  lemma HandoffWait(s: State, st: Step)
    requires Inv(s) && Enabled(s, st) && (st.LockCond? || st.Test? || st.Spurious? || st.UnlockCond?)
    ensures Handoff(Next(s, st))
  {
  }

  lemma HandoffLoop(s: State, st: Step)
    requires Inv(s) && Enabled(s, st)
    requires st.ReadPipe? || st.LoopLock? || st.Dispatch? || st.SetFlag? || st.LoopUnlock?
    ensures Handoff(Next(s, st))
  {
  }

  lemma HandoffSignal(s: State, st: Step)
    requires Inv(s) && Enabled(s, st) && st.Signal?
    ensures Handoff(Next(s, st))
  {
    if s.threads[s.deliver.value].Waiting? {
      SignalWakes(s, st, s.deliver.value);
    }
  }

  lemma InvStep(s: State, st: Step)
    requires Inv(s) && Enabled(s, st) && !st.NmWrite?
    ensures Inv(Next(s, st))
  {
    BaseStep(s, st);
    if st.Signal? {
      HandoffSignal(s, st);
    } else if st.Call? || st.LockDeliver? || st.WritePipe? || st.Reset? || st.Return? {
      HandoffCall(s, st);
    } else if st.LockCond? || st.Test? || st.Spurious? || st.UnlockCond? {
      HandoffWait(s, st);
    } else {
      HandoffLoop(s, st);
    }
  }

  ghost predicate NoNm(steps: seq<Step>) {
    forall i :: 0 <= i < |steps| ==> !steps[i].NmWrite?
  }

  lemma {:induction false} InvRun(s: State, steps: seq<Step>)
    requires Inv(s) && CanRun(s, steps) && NoNm(steps)
    ensures Inv(Run(s, steps))
    decreases |steps|
  {
    if steps != [] {
      InvStep(s, steps[0]);
      InvRun(Next(s, steps[0]), steps[1..]);
    }
  }

  lemma StartInv(n: nat)
    ensures Inv(Start(n)) && Live(Start(n))
  {
  }

  /** In every run of blocking calls, a call about to return finds dispatched what it wrote, and all others by then. */
  lemma AllDispatched(n: nat, steps: seq<Step>, t: nat)
    requires CanRun(Start(n), steps) && NoNm(steps) && Enabled(Run(Start(n), steps), Return(t))
    ensures var s := Run(Start(n), steps); var pc := s.threads[t];
      s.dispatched == s.written && pc.k < |s.dispatched| && s.dispatched[pc.k] == pc.cmd
  {
    StartInv(n);
    InvRun(Start(n), steps);
    var s := Run(Start(n), steps);
    assert Ticket(s, s.threads[t]);
  }

  // ---------- no wake-up is lost ----------

  /**
   With commands of deliverToMainloop_NM about or not: a waiting caller's command has still to be dispatched, or the
   flag is up or just about to be; and who is asleep with the flag up is just about to be signalled.
   */
  ghost predicate Pledged(s: State) {
    s.deliver.Some? ==>
      && At(s, s.deliver.value)
      && var pc := s.threads[s.deliver.value];
         && (pc.InWait() ==> s.flag || |s.dispatched| <= pc.k || s.loop.Dispatched?)
         && (pc.Waiting? ==> (s.flag <==> s.loop.Flagged?))
  }

  ghost predicate Live(s: State) {
    Base(s) && Pledged(s)
  }

  lemma PledgedCall(s: State, st: Step)
    requires Live(s) && Enabled(s, st)
    requires st.Call? || st.LockDeliver? || st.WritePipe? || st.LockCond? || st.Test? || st.Spurious?
    ensures Pledged(Next(s, st))
  {
  }

  lemma PledgedRest(s: State, st: Step)
    requires Live(s) && Enabled(s, st)
    requires st.UnlockCond? || st.Reset? || st.Return? || st.ReadPipe? || st.LoopLock? || st.Dispatch? || st.SetFlag?
        || st.LoopUnlock? || st.NmWrite?
    ensures Pledged(Next(s, st))
  {
  }

  lemma PledgedSignal(s: State, st: Step)
    requires Live(s) && Enabled(s, st) && st.Signal?
    ensures Pledged(Next(s, st))
  {
    if s.deliver.Some? && s.threads[s.deliver.value].Waiting? {
      SignalWakes(s, st, s.deliver.value);
    }
  }

  lemma LiveStep(s: State, st: Step)
    requires Live(s) && Enabled(s, st)
    ensures Live(Next(s, st))
  {
    BaseStep(s, st);
    if st.Signal? {
      PledgedSignal(s, st);
    } else if st.Call? || st.LockDeliver? || st.WritePipe? || st.LockCond? || st.Test? || st.Spurious? {
      PledgedCall(s, st);
    } else {
      PledgedRest(s, st);
    }
  }

  lemma {:induction false} LiveRun(s: State, steps: seq<Step>)
    requires Live(s) && CanRun(s, steps)
    ensures Live(Run(s, steps))
    decreases |steps|
  {
    if steps != [] {
      LiveStep(s, steps[0]);
      LiveRun(Next(s, steps[0]), steps[1..]);
    }
  }

  /** A step that is neither a new command nor a wake-up for no reason. */
  ghost predicate Working(st: Step) {
    !st.Call? && !st.Spurious? && !st.NmWrite?
  }

  /** As long as any call is open, something can move. */
  lemma SomeoneMoves(s: State, t: nat) returns (st: Step)
    requires Live(s) && At(s, t) && !s.threads[t].Idle?
    ensures Working(st) && Enabled(s, st)
  {
    if s.deliver.None? {
      return LockDeliver(t);
    }
    var h := s.deliver.value;
    match s.loop
    case Read(_) =>
      if s.cond.None? {
        return LoopLock;
      }
      assert s.cond.value.Thread? && s.threads[s.cond.value.t].InCall();
      return if s.threads[h].Testing? then Test(h) else UnlockCond(h);
    case Locked(_) => return Dispatch;
    case Dispatched => return SetFlag;
    case Flagged => return Signal(WaitingSet(s.threads));
    case Signalled => return LoopUnlock;
    case Polling =>
      if s.cond.Some? {
        assert s.threads[s.cond.value.t].InCall();
      }
      match s.threads[h]
      case Holding(_) => return WritePipe(h);
      case Written(_, _) => return LockCond(h);
      case Testing(_, _) => return Test(h);
      case Waiting(_, _) => return ReadPipe;
      case Woken(_, _) => return LockCond(h);
      case Leaving(_, _) => return UnlockCond(h);
      case Resetting(_, _) => return Reset(h);
      case Releasing(_, _) => return Return(h);
  }

  /** Whoever holds gMainCondMtx is at work. */
  lemma CondOwner(s: State)
    requires Mutexes(s)
    ensures s.cond == Some(Loop) ==> s.loop.InLock()
    ensures s.cond.Some? && s.cond != Some(Loop) ==>
              s.cond.value.Thread? && At(s, s.cond.value.t) && !s.threads[s.cond.value.t].Idle?
  {
    if s.cond.Some? && s.cond.value.Thread? {
      var t := s.cond.value.t;
      assert s.threads[t].Testing? || s.threads[t].Leaving?;
    }
  }

  /** With no call open the main loop finishes what is in the pipe. */
  lemma LoopGoesOn(s: State) returns (st: Step)
    requires Live(s) && !Rest(s) && forall t :: 0 <= t < |s.threads| ==> s.threads[t].Idle?
    ensures Working(st) && Enabled(s, st)
  {
    match s.loop
    case Polling => return ReadPipe;
    case Read(_) =>
      CondOwner(s);
      return LoopLock;
    case Locked(_) => return Dispatch;
    case Dispatched => return SetFlag;
    case Flagged => return Signal(WaitingSet(s.threads));
    case Signalled => return LoopUnlock;
  }

  function Left(pc: Pc, flag: bool): nat {
    match pc
    case Idle => 0
    case Want(_) => 21
    case Holding(_) => 20
    case Written(_, _) => 10
    case Woken(_, _) => if flag then 6 else 9
    case Testing(_, _) => if flag then 5 else 8
    case Waiting(_, _) => 7
    case Leaving(_, _) => 4
    case Resetting(_, _) => 3
    case Releasing(_, _) => 2
  }

  function LeftAll(threads: seq<Pc>, flag: bool): nat {
    if threads == [] then 0 else Left(threads[0], flag) + LeftAll(threads[1..], flag)
  }

  function LeftLoop(s: State): nat {
    6 * |s.pipe| +
    match s.loop
    case Polling => 0
    case Read(_) => 5
    case Locked(_) => 4
    case Dispatched => 3
    case Flagged => 2
    case Signalled => 1
  }

  /** How many working steps can still come. */
  function Work(s: State): nat {
    LeftAll(s.threads, s.flag) + LeftLoop(s)
  }

  lemma {:induction false} LeftMove(threads: seq<Pc>, t: nat, pc: Pc, flag: bool)
    requires t < |threads|
    ensures LeftAll(threads[t := pc], flag) == LeftAll(threads, flag) - Left(threads[t], flag) + Left(pc, flag)
    decreases |threads|
  {
    if t > 0 {
      assert threads[t := pc][1..] == threads[1..][t - 1 := pc];
      LeftMove(threads[1..], t - 1, pc, flag);
    } else {
      assert threads[t := pc][1..] == threads[1..];
    }
  }

  /** Threads that did not move closer to their return did not move away either. */
  lemma {:induction false} LeftMono(a: seq<Pc>, f: bool, b: seq<Pc>, g: bool)
    requires |a| == |b| && forall t :: 0 <= t < |a| ==> Left(b[t], g) <= Left(a[t], f)
    ensures LeftAll(b, g) <= LeftAll(a, f)
    decreases |a|
  {
    if a != [] {
      LeftMono(a[1..], f, b[1..], g);
    }
  }

  lemma EntryWorkShrinks(s: State, st: Step)
    requires Live(s) && Enabled(s, st) && (st.LockDeliver? || st.WritePipe? || st.Return?)
    ensures Work(Next(s, st)) < Work(s)
  {
    LeftMove(s.threads, st.t, Next(s, st).threads[st.t], s.flag);
  }

  lemma WaitWorkShrinks(s: State, st: Step)
    requires Live(s) && Enabled(s, st) && (st.LockCond? || st.Test? || st.UnlockCond?)
    ensures Work(Next(s, st)) < Work(s)
  {
    LeftMove(s.threads, st.t, Next(s, st).threads[st.t], s.flag);
  }

  lemma ResetWorkShrinks(s: State, t: nat)
    requires Live(s) && Enabled(s, Reset(t))
    ensures Work(Next(s, Reset(t))) < Work(s)
  {
    var r := Next(s, Reset(t));
    LeftMove(s.threads, t, r.threads[t], s.flag);
    forall i | 0 <= i < |r.threads| ensures Left(r.threads[i], false) <= Left(r.threads[i], s.flag) {
      assert s.threads[i].InCall() ==> i == t;
    }
    LeftMono(r.threads, s.flag, r.threads, false);
  }

  lemma LoopWorkShrinks(s: State, st: Step)
    requires Live(s) && Enabled(s, st)
    requires st.ReadPipe? || st.LoopLock? || st.Dispatch? || st.SetFlag? || st.Signal? || st.LoopUnlock?
    ensures Work(Next(s, st)) < Work(s)
  {
    LeftMono(s.threads, s.flag, Next(s, st).threads, Next(s, st).flag);
  }

  lemma WorkShrinks(s: State, st: Step)
    requires Live(s) && Enabled(s, st) && Working(st)
    ensures Work(Next(s, st)) < Work(s)
  {
    if st.Reset? {
      ResetWorkShrinks(s, st.t);
    } else if st.LockDeliver? || st.WritePipe? || st.Return? {
      EntryWorkShrinks(s, st);
    } else if st.LockCond? || st.Test? || st.UnlockCond? {
      WaitWorkShrinks(s, st);
    } else {
      LoopWorkShrinks(s, st);
    }
  }

  /** A wake-up for no reason costs its thread one more round through the mutex. */
  lemma SpuriousWork(s: State, t: nat)
    requires Enabled(s, Spurious(t))
    ensures Work(Next(s, Spurious(t))) <= Work(s) + 2
  {
    LeftMove(s.threads, t, Next(s, Spurious(t)).threads[t], s.flag);
  }

  /** It changes nothing: with the flag still down the thread is asleep again, and everything is as it was. */
  lemma SleepsAgain(s: State, t: nat)
    requires At(s, t) && s.threads[t].Waiting? && s.cond.None? && !s.flag
    ensures var round := [Spurious(t), LockCond(t), Test(t)]; CanRun(s, round) && Run(s, round) == s
  {
    var round, rest, test := [Spurious(t), LockCond(t), Test(t)], [LockCond(t), Test(t)], [Test(t)];
    assert round[1..] == rest && rest[1..] == test && test[1..] == [];
    var s1 := Next(s, Spurious(t));
    var s2 := Next(s1, LockCond(t));
    var pc := s.threads[t];
    assert s2 == s.(threads := s.threads[t := Testing(pc.cmd, pc.k)], cond := Some(Thread(t)));
    assert Next(s2, Test(t)).threads == s.threads && Next(s2, Test(t)) == s;
    assert CanRun(s, []) && Run(s, []) == s;
    assert CanRun(s2, test) && Run(s2, test) == s;
    assert CanRun(s1, rest) && Run(s1, rest) == s;
  }

  function SpuriousIn(steps: seq<Step>): nat {
    if steps == [] then 0 else (if steps[0].Spurious? then 1 else 0) + SpuriousIn(steps[1..])
  }

  /**
   No wake-up is lost, also among commands of deliverToMainloop_NM. However the steps interleave, once no new commands
   come there are at most Work(s) steps, and three more for each wake-up for no reason; and when nothing can move any
   more every call has returned and every command is dispatched.
   */
  lemma {:induction false} CallsReturn(s: State, steps: seq<Step>)
    requires Live(s) && CanRun(s, steps) && forall i :: 0 <= i < |steps| ==> Working(steps[i]) || steps[i].Spurious?
    ensures |steps| <= Work(s) + 3 * SpuriousIn(steps)
    ensures var r := Run(s, steps);
      (forall st :: Working(st) ==> !Enabled(r, st))
          <==> (Rest(r) && forall t :: 0 <= t < |r.threads| ==> r.threads[t].Idle?)
    decreases |steps|
  {
    if steps == [] {
      if t :| 0 <= t < |s.threads| && !s.threads[t].Idle? {
        var st := SomeoneMoves(s, t);
      } else if !Rest(s) {
        var st := LoopGoesOn(s);
      }
    } else {
      LiveStep(s, steps[0]);
      if steps[0].Spurious? {
        SpuriousWork(s, steps[0].t);
      } else {
        WorkShrinks(s, steps[0]);
      }
      assert forall i :: 0 <= i < |steps| - 1 ==> steps[1..][i] == steps[i + 1];
      CallsReturn(Next(s, steps[0]), steps[1..]);
    }
  }

  // ---------- with deliverToMainloop_NM ----------

  /** Nothing dispatched, or about to be dispatched, before this thread's command can raise the flag. */
  ghost predicate Clear(s: State) {
    !s.flag && s.pipe == [] && !s.loop.Read? && !s.loop.Locked? && !s.loop.Dispatched?
  }

  ghost predicate NoReturn(steps: seq<Step>, t: nat) {
    forall i :: 0 <= i < |steps| ==> steps[i] != Return(t)
  }

  /** A run to the end of thread t's call that dispatches no more than the first k commands. */
  ghost predicate Early(s: State, steps: seq<Step>, t: nat, k: nat) {
    && CanRun(s, steps) && NoReturn(steps, t)
    && Enabled(Run(s, steps), Return(t)) && |Run(s, steps).dispatched| <= k
  }

  /** The call of thread t whose command is number k is still open. */
  ghost predicate Open(s: State, t: nat, k: nat) {
    At(s, t) && s.threads[t].Posted() && s.threads[t].k == k
  }

  /** Command k is next to be dispatched or has been dispatched, and until then t cannot see the flag. */
  ghost predicate Ordered(s: State, t: nat, k: nat) {
    && Open(s, t, k) && |s.dispatched| >= k
    && (|s.dispatched| == k ==> s.threads[t].InWait() && !s.flag && !s.loop.Dispatched?)
  }

  lemma OrderedStep(s: State, st: Step, t: nat, k: nat)
    requires Base(s) && Ordered(s, t, k) && Enabled(s, st) && st != Return(t)
    ensures Ordered(Next(s, st), t, k)
  {
    assert s.deliver == Some(t);
  }

  lemma {:induction false} OrderedRun(s: State, steps: seq<Step>, t: nat, k: nat)
    requires Base(s) && Ordered(s, t, k) && CanRun(s, steps)
    requires NoReturn(steps, t)
    ensures Base(Run(s, steps)) && Ordered(Run(s, steps), t, k)
    decreases |steps|
  {
    if steps != [] {
      BaseStep(s, steps[0]);
      OrderedStep(s, steps[0], t, k);
      OrderedRun(Next(s, steps[0]), steps[1..], t, k);
    }
  }

  /** Thread t, about to write its command, can be made to return before that command is dispatched. */
  ghost predicate CanReturnEarly(s: State, t: nat)
    requires Enabled(s, WritePipe(t))
  {
    exists steps :: Early(Next(s, WritePipe(t)), steps, t, |s.written|)
  }

  lemma ClearNeverEarly(s: State, t: nat)
    requires Base(s) && Enabled(s, WritePipe(t)) && Clear(s)
    ensures !CanReturnEarly(s, t)
  {
    var k, w := |s.written|, Next(s, WritePipe(t));
    BaseStep(s, WritePipe(t));
    assert Ordered(w, t, k);
    forall steps | CanRun(w, steps) && NoReturn(steps, t)
      ensures Enabled(Run(w, steps), Return(t)) ==> |Run(w, steps).dispatched| > k
    {
      OrderedRun(w, steps, t, k);
    }
  }

  lemma EarlyBefore(s: State, st: Step, rest: seq<Step>, t: nat, k: nat)
    requires Enabled(s, st) && st != Return(t) && Early(Next(s, st), rest, t, k)
    ensures Early(s, [st] + rest, t, k)
  {
    var steps := [st] + rest;
    assert steps[0] == st && steps[1..] == rest;
    assert forall i :: 0 <= i < |rest| ==> steps[i + 1] == rest[i];
  }

  /** With the flag up and gMainCondMtx free, the thread walks through. */
  lemma WalkThrough(s: State, t: nat, k: nat) returns (steps: seq<Step>)
    requires At(s, t) && s.threads[t].Written? && s.flag && s.cond.None? && |s.dispatched| <= k
    ensures Early(s, steps, t, k)
  {
    var s1 := Next(s, LockCond(t));
    var s2 := Next(s1, Test(t));
    var s3 := Next(s2, UnlockCond(t));
    var s4 := Next(s3, Reset(t));
    assert Early(s4, [], t, k);
    EarlyBefore(s3, Reset(t), [], t, k);
    EarlyBefore(s2, UnlockCond(t), [Reset(t)] + [], t, k);
    EarlyBefore(s1, Test(t), [UnlockCond(t)] + ([Reset(t)] + []), t, k);
    steps := [LockCond(t)] + ([Test(t)] + ([UnlockCond(t)] + ([Reset(t)] + [])));
    EarlyBefore(s, LockCond(t), [Test(t)] + ([UnlockCond(t)] + ([Reset(t)] + [])), t, k);
  }

  /** Command k of thread t is written, and the flag is up or will be raised for an earlier command. */
  ghost predicate Pending(s: State, t: nat, k: nat) {
    && Base(s) && At(s, t) && s.threads[t].Written?
    && |s.dispatched| + |s.loop.InHand()| <= k < |s.written|
    && (s.flag || s.loop.Dispatched? || |s.dispatched| < k)
  }

  /** Only the caller that holds gDeliverpMtx could be asleep, and it is not. */
  lemma NobodyWaits(s: State, t: nat)
    requires Mutexes(s) && At(s, t) && s.threads[t].Written?
    ensures WaitingSet(s.threads) == {} && s.deliver == Some(t) && !(s.cond.Some? && s.cond.value.Thread?)
  {
    assert s.threads[t].InCall();
    forall i | 0 <= i < |s.threads| ensures !s.threads[i].Waiting? && !s.threads[i].Testing? && !s.threads[i].Leaving? {
      assert s.threads[i].InCall() ==> i == t;
    }
  }

  /** The main loop's next step while thread t is about to lock gMainCondMtx. */
  lemma LoopMoves(s: State, t: nat, k: nat) returns (st: Step)
    requires Pending(s, t, k) && !(s.flag && s.cond.None?)
    ensures st != Return(t) && Enabled(s, st) && Pending(Next(s, st), t, k) && LeftLoop(Next(s, st)) < LeftLoop(s)
  {
    NobodyWaits(s, t);
    match s.loop
    case Polling => st := ReadPipe;
    case Read(_) => st := LoopLock;
    case Locked(_) => st := Dispatch;
    case Dispatched => st := SetFlag;
    case Flagged =>
      st := Signal({});
    case Signalled => st := LoopUnlock;
    BaseStep(s, st);
  }

  lemma {:induction false} DriveLoop(s: State, t: nat, k: nat) returns (steps: seq<Step>)
    requires Pending(s, t, k)
    ensures Early(s, steps, t, k)
    decreases LeftLoop(s)
  {
    if s.flag && s.cond.None? {
      steps := WalkThrough(s, t, k);
    } else {
      var st := LoopMoves(s, t, k);
      var rest := DriveLoop(Next(s, st), t, k);
      EarlyBefore(s, st, rest, t, k);
      steps := [st] + rest;
    }
  }

  /**
   With commands of deliverToMainloop_NM in the mix, a blocking call is safe exactly when at its pipe write no flag is
   up and no other command is in the pipe or between pipe and flag. Whatever is written behind it does no harm.
   */
  lemma EarlyExactly(s: State, t: nat)
    requires Base(s) && Enabled(s, WritePipe(t))
    ensures CanReturnEarly(s, t) <==> !Clear(s)
  {
    if Clear(s) {
      ClearNeverEarly(s, t);
    } else {
      var w, k := Next(s, WritePipe(t)), |s.written|;
      BaseStep(s, WritePipe(t));
      assert Pending(w, t, k);
      var steps := DriveLoop(w, t, k);
    }
  }

  lemma RunThree(s: State, a: Step, b: Step, c: Step) returns (r: State)
    requires Enabled(s, a) && Enabled(Next(s, a), b) && Enabled(Next(Next(s, a), b), c)
    ensures r == Next(Next(Next(s, a), b), c) && CanRun(s, [a, b, c]) && Run(s, [a, b, c]) == r
  {
    var s1 := Next(s, a);
    var s2 := Next(s1, b);
    r := Next(s2, c);
    assert [a, b, c][1..] == [b, c] && [b, c][1..] == [c] && [c][1..] == [];
    assert CanRun(r, []) && Run(r, []) == r;
    assert CanRun(s2, [c]) && Run(s2, [c]) == r;
    assert CanRun(s1, [b, c]) && Run(s1, [b, c]) == r;
  }

  /** A single NM command before the first call is enough. */
  lemma NmBreaksNextCall()
    ensures exists steps ::
      && CanRun(Start(1), steps) && Enabled(Run(Start(1), steps), WritePipe(0))
          && CanReturnEarly(Run(Start(1), steps), 0)
  {
    var s0 := Start(1);
    var s3 := RunThree(s0, NmWrite(5), Call(0, 7), LockDeliver(0));
    StartInv(1);
    BaseRun(s0, [NmWrite(5), Call(0, 7), LockDeliver(0)]);
    EarlyExactly(s3, 0);
  }
}
