/** Whose command is whose: what the calls of a run were made with, against what is written and dispatched. */
module MainLoopCalls {
  import opened Options
  import opened MainLoop
  import opened MainLoopRuns

  lemma {:induction false} RunLast(s: State, p: seq<Step>, st: Step)
    ensures CanRun(s, p + [st]) <==> CanRun(s, p) && Enabled(Run(s, p), st)
    ensures CanRun(s, p + [st]) ==> Run(s, p + [st]) == Next(Run(s, p), st)
    decreases |p|
  {
    var q := p + [st];
    if p == [] {
      assert q[0] == st && q[1..] == [];
    } else {
      assert q[0] == p[0] && q[1..] == p[1..] + [st];
      if Enabled(s, p[0]) {
        RunLast(Next(s, p[0]), p[1..], st);
      }
    }
  }

  // ---------- a call's own command ----------

  /** The command of the last call thread t has made. */
  function LastCall(steps: seq<Step>, t: nat): Option<Cmd>
    decreases |steps|
  {
    if steps == [] then None
    else
      var st := steps[|steps| - 1];
      if st.Call? && st.t == t then Some(st.cmd) else LastCall(steps[..|steps| - 1], t)
  }

  lemma KeepsCommand(s: State, st: Step, t: nat)
    requires Enabled(s, st) && At(s, t) && !Next(s, st).threads[t].Idle?
    ensures if st.Call? && st.t == t then Next(s, st).threads[t].cmd == st.cmd
            else !s.threads[t].Idle? && Next(s, st).threads[t].cmd == s.threads[t].cmd
  {
  }

  lemma {:induction false} OwnCommand(n: nat, steps: seq<Step>, t: nat)
    requires CanRun(Start(n), steps)
    ensures var s := Run(Start(n), steps); |s.threads| == n
    ensures var s := Run(Start(n), steps);
      At(s, t) && !s.threads[t].Idle? ==> LastCall(steps, t) == Some(s.threads[t].cmd)
    decreases |steps|
  {
    if steps != [] {
      var p, st := steps[..|steps| - 1], steps[|steps| - 1];
      assert steps == p + [st];
      RunLast(Start(n), p, st);
      OwnCommand(n, p, t);
      if t < n && !Run(Start(n), steps).threads[t].Idle? {
        KeepsCommand(Run(Start(n), p), st, t);
      }
    }
  }

  /**
   In every run of blocking calls, a call that is about to return finds the command it was made with dispatched, in the
   place where it was written, and all others by then too.
   */
  lemma CallReturnsDispatched(n: nat, steps: seq<Step>, t: nat)
    requires CanRun(Start(n), steps) && NoNm(steps) && Enabled(Run(Start(n), steps), Return(t))
    ensures var s := Run(Start(n), steps); var k := s.threads[t].k;
      s.dispatched == s.written && k < |s.dispatched| && LastCall(steps, t) == Some(s.dispatched[k])
  {
    OwnCommand(n, steps, t);
    AllDispatched(n, steps, t);
  }

  // ---------- everything that is written was asked for ----------

  /** What the calls of a run write, in the order in which they come to the pipe. */
  ghost function Sent(steps: seq<Step>): seq<Cmd>
    decreases |steps|
  {
    if steps == [] then []
    else
      var p, st := steps[..|steps| - 1], steps[|steps| - 1];
      match st
      case NmWrite(c) => Sent(p) + [c]
      case WritePipe(t) => Sent(p) + if LastCall(p, t).Some? then [LastCall(p, t).value] else []
      case _ => Sent(p)
  }

  /** The pipe sees every thread's own commands and those of deliverToMainloop_NM, and nothing else. */
  lemma {:induction false} WrittenIsSent(n: nat, steps: seq<Step>)
    requires CanRun(Start(n), steps)
    ensures Run(Start(n), steps).written == Sent(steps)
    decreases |steps|
  {
    if steps != [] {
      var p, st := steps[..|steps| - 1], steps[|steps| - 1];
      assert steps == p + [st];
      RunLast(Start(n), p, st);
      WrittenIsSent(n, p);
      if st.WritePipe? {
        OwnCommand(n, p, st.t);
      }
    }
  }

  /** How often a command was an argument of a call, blocking or not. */
  function Asked(steps: seq<Step>, c: Cmd): nat
    decreases |steps|
  {
    if steps == [] then 0 else Asked(steps[..|steps| - 1], c) + AskedBy(steps[|steps| - 1], c)
  }

  function AskedBy(st: Step, c: Cmd): nat {
    if (st.Call? || st.NmWrite?) && st.cmd == c then 1 else 0
  }

  /** In how many calls it has not come to the pipe write yet. */
  function Unsent(threads: seq<Pc>, c: Cmd): nat
    decreases |threads|
  {
    if threads == [] then 0 else UnsentBy(threads[0], c) + Unsent(threads[1..], c)
  }

  function UnsentBy(pc: Pc, c: Cmd): nat {
    if (pc.Want? || pc.Holding?) && pc.cmd == c then 1 else 0
  }

  lemma {:induction false} UnsentMove(threads: seq<Pc>, t: nat, pc: Pc, c: Cmd)
    requires t < |threads|
    ensures Unsent(threads[t := pc], c) == Unsent(threads, c) - UnsentBy(threads[t], c) + UnsentBy(pc, c)
    decreases |threads|
  {
    if t > 0 {
      assert threads[t := pc][1..] == threads[1..][t - 1 := pc];
      UnsentMove(threads[1..], t - 1, pc, c);
    } else {
      assert threads[t := pc][1..] == threads[1..];
    }
  }

  lemma {:induction false} UnsentSame(a: seq<Pc>, b: seq<Pc>, c: Cmd)
    requires |a| == |b| && forall t :: 0 <= t < |a| ==> UnsentBy(a[t], c) == UnsentBy(b[t], c)
    ensures Unsent(a, c) == Unsent(b, c)
    decreases |a|
  {
    if a != [] {
      UnsentSame(a[1..], b[1..], c);
    }
  }

  lemma {:induction false} NothingUnsent(n: nat, c: Cmd)
    ensures Unsent(Start(n).threads, c) == 0
  {
    if n > 0 {
      assert Start(n).threads[1..] == Start(n - 1).threads;
      NothingUnsent(n - 1, c);
    }
  }

  lemma StepUnsent(s: State, st: Step, c: Cmd)
    requires Enabled(s, st)
    ensures Unsent(Next(s, st).threads, c) ==
            Unsent(s.threads, c) + (if st.Call? && st.cmd == c then 1 else 0)
                                 - (if st.WritePipe? && s.threads[st.t].cmd == c then 1 else 0)
  {
    if st.Call? || st.WritePipe? {
      UnsentMove(s.threads, st.t, Next(s, st).threads[st.t], c);
    } else {
      UnsentSame(s.threads, Next(s, st).threads, c);
    }
  }

  lemma StepWritten(s: State, st: Step, c: Cmd)
    requires Enabled(s, st)
    ensures multiset(Next(s, st).written)[c] ==
            multiset(s.written)[c] + (if st.NmWrite? && st.cmd == c then 1 else 0)
                                   + (if st.WritePipe? && s.threads[st.t].cmd == c then 1 else 0)
  {
  }

  /** No command is lost, invented or written twice: each call's argument is written, or its call has yet to do so. */
  lemma {:induction false} CommandsConserved(n: nat, steps: seq<Step>, c: Cmd)
    requires CanRun(Start(n), steps)
    ensures var s := Run(Start(n), steps); multiset(s.written)[c] + Unsent(s.threads, c) == Asked(steps, c)
    decreases |steps|
  {
    if steps == [] {
      NothingUnsent(n, c);
    } else {
      var p, st := steps[..|steps| - 1], steps[|steps| - 1];
      assert steps == p + [st];
      RunLast(Start(n), p, st);
      CommandsConserved(n, p, c);
      StepUnsent(Run(Start(n), p), st, c);
      StepWritten(Run(Start(n), p), st, c);
    }
  }
}
