/** How many handles there are, and who holds them: nothing is lost and nothing is invented. */
module HandleCount {
  import opened RbShape
  import opened HandleRuns

  /** The real handles among the keys of a table; error codes can be keys too. */
  ghost function Real(keys: set<Key>): set<Key> {
    set h | h in keys && h >= 1
  }

  lemma RealWith(keys: set<Key>, h: Key)
    ensures h >= 1 ==> Real(keys + {h}) == Real(keys) + {h} && Real(keys - {h}) == Real(keys) - {h}
    ensures h < 1 ==> Real(keys + {h}) == Real(keys)
  {
  }

  ghost function Live(s: State): set<Key> {
    Real(s.keys.Keys) + Real(s.paths.Keys)
  }

  /** Every number issued so far is live or free, and there is exactly one place for each. */
  ghost predicate Counted(s: State) {
    && (forall i :: 0 <= i < |s.free| ==> 1 <= s.free[i] < s.next)
    && (forall n :: n in Live(s) ==> n < s.next)
    && (forall n: Key :: 1 <= n < s.next ==> n in Live(s) || n in s.free)
    && |s.free| + |Live(s)| == s.next - 1
  }

  /** Live and free numbers partition 1 .. gHandleIdx - 1. */
  ghost predicate Conserved(s: State) {
    Exclusive(s) && Counted(s)
  }

  /** Only numbers an allocation returned are given back; closing the error code itself is excluded. */
  ghost predicate HonestStep(s: State, op: Op) {
    match op
    case Close(h) => h >= 1
    case ReleasePath(h) => h >= 1 && s.pathTree
    case Shutdown => Live(s) == {}
    case _ => true
  }

  /** t is s after handing out h. */
  ghost predicate Issues(s: State, t: State, h: int) {
    (s.free == t.free + [h] && t.next == s.next) || (t.free == s.free && h == s.next && t.next == s.next + 1)
  }

  /** The allocator either refuses and stays as it is, or hands out a number that is not in use. */
  ghost predicate Served(s: State) {
    var (t, h) := Take(s);
    && t == s.(free := t.free, next := t.next)
    && if h == EPERS_MAXHANDLE then t == s else h >= 1 && h !in Live(s) && Issues(s, t, h)
  }

  /** A full allocator says so exactly when all 510 numbers are in use. */
  lemma TakeConserved(s: State)
    requires Conserved(s)
    ensures var (t, h) := Take(s);
      && (h == EPERS_MAXHANDLE <==> |Live(s)| == 510) && (h != EPERS_MAXHANDLE ==> 1 <= h <= 510 && h !in Live(s))
      && |Live(s)| <= 510
      && Served(s)
  {
    TakeFresh(s);
    var (t, h) := Take(s);
    if 0 < |s.free| {
      assert s.free == t.free + [h];
    }
  }

  lemma AddFromFree(s: State, t: State, h: int)
    requires Counted(s) && h !in Live(s) && Live(t) == Live(s) + {h} && s.free == t.free + [h] && t.next == s.next
    ensures Counted(t)
  {
    assert s.free[|t.free|] == h;
    assert forall i :: 0 <= i < |t.free| ==> t.free[i] == s.free[i];
    assert forall n :: n in s.free ==> n in t.free || n == h;
  }

  lemma AddCounted(s: State, t: State, h: int)
    requires Counted(s) && h !in Live(s) && Live(t) == Live(s) + {h}
    requires Issues(s, t, h)
    ensures Counted(t)
  {
    if s.free == t.free + [h] {
      AddFromFree(s, t, h);
    }
  }

  lemma GiveCounted(s: State, t: State, h: int)
    requires Counted(s) && 1 <= h && h in Live(s) && Live(t) == Live(s) - {h} && t.next == s.next
        && t.free == s.free + [h]
    ensures Counted(t)
  {
  }

  /** There is always room to put a live handle back. */
  lemma RoomToGive(s: State, h: int)
    requires Conserved(s) && h in Live(s)
    ensures Give(s, h) == s.(free := s.free + [h]) && |s.free| < MAX_PERS_HANDLE - 1
  {
    assert |Live(s)| >= 1;
  }

  /** One table gains a key, the other keeps its keys. */
  ghost predicate Gains(s: State, t: State, h: Key) {
    (t.keys.Keys == s.keys.Keys + {h} && t.paths == s.paths) || (t.paths.Keys == s.paths.Keys + {h} && t.keys == s.keys)
  }

  /** One table loses a key that the other never had. */
  ghost predicate Loses(s: State, t: State, h: Key) {
    || (h in s.keys && h !in s.paths && t.keys.Keys == s.keys.Keys - {h} && t.paths == s.paths)
    || (h in s.paths && h !in s.keys && t.paths.Keys == s.paths.Keys - {h} && t.keys == s.keys)
  }

  lemma LiveAfter(s: State, t: State, h: Key)
    ensures Gains(s, t, h) && h >= 1 ==> Live(t) == Live(s) + {h}
    ensures Gains(s, t, h) && h < 1 ==> Live(t) == Live(s)
    ensures Loses(s, t, h) && h >= 1 ==> h in Live(s) && Live(t) == Live(s) - {h}
  {
    RealWith(s.keys.Keys, h);
    RealWith(s.paths.Keys, h);
  }

  lemma OpenConserved(s: State, r: Resource)
    requires Conserved(s)
    ensures Conserved(OpenKey(s, r).0)
  {
    OpenExclusive(s, r);
    TakeConserved(s);
    OpenCounted(s, r);
  }

  lemma Issued(s: State, t: State, h: Key)
    requires Counted(s) && Served(s) && Gains(s, t, h)
    requires h == Take(s).1 && t.free == Take(s).0.free && t.next == Take(s).0.next
    ensures Counted(t)
  {
    LiveAfter(s, t, h);
    if h != EPERS_MAXHANDLE {
      AddCounted(s, t, h);
    }
  }

  lemma OpenGains(s: State, r: Resource)
    requires Ints(s) && Served(s)
    ensures var (t, h) := OpenKey(s, r);
      Gains(s, t, h) && t.free == Take(s).0.free && t.next == Take(s).0.next && h == Take(s).1
  {
    var (t, h) := OpenKey(s, r);
    assert t.keys.Keys == s.keys.Keys + {h as Key};
  }

  lemma OpenCounted(s: State, r: Resource)
    requires Ints(s) && Counted(s) && Served(s)
    ensures Counted(OpenKey(s, r).0)
  {
    OpenGains(s, r);
    Issued(s, OpenKey(s, r).0, OpenKey(s, r).1);
  }

  lemma NewPathConserved(s: State, path: string)
    requires Conserved(s)
    ensures Conserved(NewPath(s, path).0)
  {
    NewPathExclusive(s, path);
    TakeConserved(s);
    NewPathCounted(s, path);
  }

  lemma NewPathGains(s: State, path: string)
    requires Ints(s) && Served(s) && Take(s).1 < MAX_PERS_HANDLE
    ensures var (t, h) := NewPath(s, path);
      Gains(s, t, h) && t.free == Take(s).0.free && t.next == Take(s).0.next && h == Take(s).1
  {
    var (t, h) := NewPath(s, path);
    assert h == Take(s).1 && h < MAX_PERS_HANDLE;
    assert t.paths.Keys == s.paths.Keys + {h as Key};
  }

  lemma NewPathCounted(s: State, path: string)
    requires Ints(s) && Counted(s) && Served(s) && Take(s).1 < MAX_PERS_HANDLE
    ensures Counted(NewPath(s, path).0)
  {
    NewPathGains(s, path);
    Issued(s, NewPath(s, path).0, NewPath(s, path).1);
  }

  lemma CloseConserved(s: State, h: Key)
    requires Conserved(s) && h >= 1
    ensures Conserved(CloseKey(s, h).0)
  {
    CloseExclusive(s, h);
    if h in s.keys && s.keys[h].resourceId != "" {
      RoomToGive(s, h);
      LiveAfter(s, CloseKey(s, h).0, h);
      GiveCounted(s, CloseKey(s, h).0, h);
    }
  }

  lemma DropPathConserved(s: State, h: Key)
    requires Conserved(s) && HonestStep(s, ReleasePath(h))
    ensures Conserved(DropPath(s, h).0)
  {
    DropPathExclusive(s, h);
    if h in s.paths {
      RoomToGive(s, h);
      LiveAfter(s, DropPath(s, h).0, h);
      GiveCounted(s, DropPath(s, h).0, h);
    }
  }

  lemma ShutdownConserved(s: State)
    requires Conserved(s) && Live(s) == {}
    ensures Conserved(CloseAll(s))
  {
    assert Live(CloseAll(s)) == Live(s);
    forall h | h in s.keys || h in s.paths ensures h < 1 {
      assert h >= 1 ==> h in Live(s);
    }
  }

  lemma StepConserved(s: State, op: Op)
    requires Conserved(s) && HonestStep(s, op)
    ensures Conserved(Step(s, op).0)
  {
    match op
    case Open(r) => OpenConserved(s, r);
    case CreatePath(p) => NewPathConserved(s, p);
    case Close(h) => CloseConserved(s, h);
    case ReleasePath(h) => DropPathConserved(s, h);
    case Shutdown => ShutdownConserved(s);
    case Deinit => StartConserved();
  }

  ghost predicate HonestRun(s: State, ops: seq<Op>)
    requires Ints(s)
    decreases |ops|
  {
    ops != [] ==> HonestStep(s, ops[0]) && HonestRun(Step(s, ops[0]).0, ops[1..])
  }

  /** Along every honest run live and free handles partition what was ever issued. */
  lemma {:induction false} RunConserved(s: State, ops: seq<Op>)
    requires Conserved(s) && HonestRun(s, ops)
    ensures Conserved(Run(s, ops))
    decreases |ops|
  {
    if ops != [] {
      StepConserved(s, ops[0]);
      RunConserved(Step(s, ops[0]).0, ops[1..]);
    }
  }

  lemma StartConserved()
    ensures Conserved(START)
  {
    assert Live(START) == {};
  }

  /** The number closed last is the next one issued. */
  lemma Lifo(s: State, h: Key, r: Resource)
    requires Conserved(s) && h >= 1 && h in s.keys && s.keys[h].resourceId != ""
    ensures OpenKey(CloseKey(s, h).0, r).1 == h
  {
    RoomToGive(s, h);
  }

  // ---------- without the honesty condition ----------

  /** As long as the free list is not stuck, no number that was issued gets lost. */
  ghost predicate Covered(s: State) {
    !Stuck(s) ==> forall n: Key :: 1 <= n < s.next ==> n in Live(s) || n in s.free
  }

  /** A number leaves the free list or the counter for a table. */
  lemma IssueCovered(s: State, t: State)
    requires Exclusive(s) && Covered(s) && t.free == Take(s).0.free && t.next == Take(s).0.next
    requires Live(s) <= Live(t) && (Take(s).1 >= 1 ==> Take(s).1 in Live(t))
    ensures Covered(t)
  {
    var (u, h) := Take(s);
    if 0 < |s.free| < MAX_PERS_HANDLE {
      assert s.free == u.free + [h];
    }
  }

  /** A number leaves a table for the free list. */
  lemma GiveCovered(s: State, t: State, h: Key)
    requires Covered(s) && t.free == Give(s, h).free && t.next == s.next && Live(s) <= Live(t) + {h}
    ensures Covered(t)
  {
  }

  lemma StepCovered(s: State, op: Op)
    requires Exclusive(s) && Covered(s) && SafeStep(s, op)
    ensures Covered(Step(s, op).0)
  {
    var t := Step(s, op).0;
    match op
    case Open(r) => IssueCovered(s, t);
    case CreatePath(path) => PathCovered(s, path);
    case Close(h) =>
      if h in s.keys && s.keys[h].resourceId != "" {
        GiveCovered(s, t, h);
      }
    case ReleasePath(h) =>
      if h in s.paths || !s.pathTree {
        GiveCovered(s, t, h);
      }
    case _ =>
  }

  lemma PathCovered(s: State, path: string)
    requires Exclusive(s) && Covered(s)
    ensures Covered(NewPath(s, path).0)
  {
    var (u, h) := Take(s);
    if h < MAX_PERS_HANDLE {
      IssueCovered(s, NewPath(s, path).0);
    } else {
      assert NewPath(s, path).0.free == s.free;
    }
  }

  lemma {:induction false} RunCovered(s: State, ops: seq<Op>)
    requires Exclusive(s) && Covered(s) && SafeRun(s, ops)
    ensures Exclusive(Run(s, ops)) && Covered(Run(s, ops))
    decreases |ops|
  {
    if ops != [] {
      StepExclusive(s, ops[0]);
      StepCovered(s, ops[0]);
      RunCovered(Step(s, ops[0]).0, ops[1..]);
    }
  }

  /**
   When the allocator says EPERS_MAXHANDLE, in every run from program start, also one that gives back error codes. The
   free list is the stack of numbers given back and not issued again: either that very code lies on top of it, or it is
   empty and all 510 numbers are live. Once the list is stuck, the counter alone decides.
   */
  lemma MaxHandleExactly(ops: seq<Op>)
    requires SafeRun(START, ops)
    ensures var s := Run(START, ops);
      Take(s).1 == EPERS_MAXHANDLE <==>
        if Stuck(s) then s.next == 511
        else if s.free == [] then forall n: Key :: 1 <= n <= 510 ==> n in Live(s)
        else s.free[|s.free| - 1] == EPERS_MAXHANDLE
  {
    RunCovered(START, ops);
    var s := Run(START, ops);
    if !Stuck(s) && s.free == [] && s.next < 511 {
      assert s.next as Key !in Live(s);
    }
  }

  function Opens(n: nat, r: Resource): seq<Op> {
    seq(n, _ => Open(r))
  }

  /** The key table after that many opens. */
  ghost function FirstHandles(n: nat, r: Resource): (m: map<Key, Resource>)
    requires n <= 510
    ensures forall h :: (h in m <==> 1 <= h <= n) && (h in m ==> m[h] == r)
    ensures |m.Keys| == n
  {
    if n == 0 then map[] else FirstHandles(n - 1, r)[n as Key := r]
  }

  lemma {:induction false} OpensFill(n: nat, r: Resource)
    requires n <= 510
    ensures SafeRun(START, Opens(n, r)) && Run(START, Opens(n, r)) == State(FirstHandles(n, r), map[], false, [], n + 1)
  {
    if n > 0 {
      OpensFill(n - 1, r);
      var s := Run(START, Opens(n - 1, r));
      assert Opens(n, r) == Opens(n - 1, r) + [Open(r)];
      SafeConcat(START, Opens(n - 1, r), [Open(r)]);
      assert [Open(r)][1..] == [];
    }
  }

  lemma RunOne(s: State, op: Op)
    requires Ints(s) && SafeStep(s, op)
    ensures SafeRun(s, [op]) && Run(s, [op]) == Step(s, op).0
  {
    assert [op][1..] == [];
  }

  lemma FillAndClose(s: State, r: Resource, k: Key) returns (t: State)
    requires s == State(FirstHandles(510, r), map[], false, [], 511) && r.resourceId != "" && 1 <= k <= 510
    ensures var tail := [Open(r), Close(k), Close(EPERS_MAXHANDLE)]; SafeRun(s, tail) && Run(s, tail) == t
    ensures t.free == [k as int, EPERS_MAXHANDLE] && t.keys == s.keys - {k} && t.paths == map[]
  {
    var s1 := OpenKey(s, r).0;
    assert s1 == State(s.keys[EPERS_MAXHANDLE := r], map[], false, [], 511);
    var s2 := CloseKey(s1, k).0;
    assert s2 == State(s1.keys - {k}, map[], false, [k as int], 511);
    t := CloseKey(s2, EPERS_MAXHANDLE).0;
    assert t == State(s.keys - {k}, map[], false, [k as int, EPERS_MAXHANDLE], 511);
    RunOne(s, Open(r));
    RunOne(s1, Close(k));
    RunOne(s2, Close(EPERS_MAXHANDLE));
    SafeConcat(s, [Open(r)], [Close(k)]);
    SafeConcat(s, [Open(r)] + [Close(k)], [Close(EPERS_MAXHANDLE)]);
    assert [Open(r)] + [Close(k)] + [Close(EPERS_MAXHANDLE)] == [Open(r), Close(k), Close(EPERS_MAXHANDLE)];
  }

  lemma LiveWithout(s: State, m: map<Key, Resource>, k: Key)
    requires s.keys == m - {k} && s.paths == map[] && k in m && forall h :: h in m ==> h >= 1
    ensures |Live(s)| == |m.Keys| - 1
  {
    assert Live(s) == m.Keys - {k};
  }

  /** The run that leads there: 511 opens, one handle closed, then the answer of the last open closed too. */
  lemma ClosedErrorCodeComesBack(r: Resource, k: Key, r2: Resource)
    requires r.resourceId != "" && 1 <= k <= 510
    ensures var ops := Opens(510, r) + [Open(r), Close(k), Close(EPERS_MAXHANDLE)];
      && SafeRun(START, ops)
      && var s := Run(START, ops); k in s.free && |Live(s)| == 509 && OpenKey(s, r2).1 == EPERS_MAXHANDLE
  {
    OpensFill(510, r);
    var s0 := Run(START, Opens(510, r));
    var s3 := FillAndClose(s0, r, k);
    SafeConcat(START, Opens(510, r), [Open(r), Close(k), Close(EPERS_MAXHANDLE)]);
    LiveWithout(s3, FirstHandles(510, r), k);
  }

  // ---------- the stuck free list ----------

  /** The first n numbers, closed in order. */
  function Closes(n: nat): seq<Op>
    requires n <= 510
  {
    if n == 0 then [] else Closes(n - 1) + [Close(n)]
  }

  function Upto(n: nat): (r: seq<int>)
    ensures |r| == n && forall i :: 0 <= i < n ==> r[i] == i + 1
  {
    if n == 0 then [] else Upto(n - 1) + [n]
  }

  /** The key table with 510 handles and the error code in it, after the first n are closed. */
  ghost function Rest(n: nat, r: Resource): (m: map<Key, Resource>)
    requires n <= 510
    ensures forall h :: (h in m <==> n < h <= 510 || h == EPERS_MAXHANDLE) && (h in m ==> m[h] == r)
  {
    if n == 0 then FirstHandles(510, r)[EPERS_MAXHANDLE := r] else Rest(n - 1, r) - {n}
  }

  ghost function Draining(n: nat, r: Resource, path: string): State
    requires n <= 510
  {
    State(Rest(n, r), map[EPERS_MAXHANDLE := path], true, Upto(n), 511)
  }

  lemma CloseDrains(n: nat, r: Resource, path: string)
    requires 1 <= n <= 510 && r.resourceId != ""
    ensures var s := Draining(n - 1, r, path); SafeRun(s, [Close(n)]) && Run(s, [Close(n)]) == Draining(n, r, path)
  {
    var s := Draining(n - 1, r, path);
    assert n in s.keys && s.keys[n].resourceId != "";
    assert CloseKey(s, n).0 == Draining(n, r, path);
    RunOne(s, Close(n));
  }

  lemma {:induction false} ClosesDrain(n: nat, r: Resource, path: string)
    requires n <= 510 && r.resourceId != ""
    ensures SafeRun(Draining(0, r, path), Closes(n)) && Run(Draining(0, r, path), Closes(n)) == Draining(n, r, path)
  {
    if n > 0 {
      ClosesDrain(n - 1, r, path);
      CloseDrains(n, r, path);
      SafeConcat(Draining(0, r, path), Closes(n - 1), [Close(n)]);
    }
  }

  /** One open and one path too many. */
  lemma FillBeyond(s: State, r: Resource, path: string)
    requires s == State(FirstHandles(510, r), map[], false, [], 511)
    ensures SafeRun(s, [Open(r), CreatePath(path)]) && Run(s, [Open(r), CreatePath(path)]) == Draining(0, r, path)
  {
    var s1 := OpenKey(s, r).0;
    assert s1 == State(s.keys[EPERS_MAXHANDLE := r], map[], false, [], 511);
    assert NewPath(s1, path).0 == Draining(0, r, path);
    RunOne(s, Open(r));
    RunOne(s1, CreatePath(path));
    SafeConcat(s, [Open(r)], [CreatePath(path)]);
    assert [Open(r)] + [CreatePath(path)] == [Open(r), CreatePath(path)];
  }

  /** Both answers of the full allocator given back as well. */
  lemma CloseCodes(r: Resource, path: string)
    requires r.resourceId != ""
    ensures var ops := [Close(EPERS_MAXHANDLE), ReleasePath(EPERS_MAXHANDLE)]; var s := Draining(510, r, path);
      SafeRun(s, ops) && Run(s, ops) == State(map[], map[], true, Upto(510) + [EPERS_MAXHANDLE, EPERS_MAXHANDLE], 511)
  {
    var s := Draining(510, r, path);
    var s1 := CloseKey(s, EPERS_MAXHANDLE).0;
    assert s.keys - {EPERS_MAXHANDLE} == map[];
    assert s1 == State(map[], s.paths, true, Upto(510) + [EPERS_MAXHANDLE], 511);
    assert s.paths - {EPERS_MAXHANDLE} == map[];
    assert Upto(510) + [EPERS_MAXHANDLE] + [EPERS_MAXHANDLE] == Upto(510) + [EPERS_MAXHANDLE, EPERS_MAXHANDLE];
    RunOne(s, Close(EPERS_MAXHANDLE));
    RunOne(s1, ReleasePath(EPERS_MAXHANDLE));
    SafeConcat(s, [Close(EPERS_MAXHANDLE)], [ReleasePath(EPERS_MAXHANDLE)]);
    assert [Close(EPERS_MAXHANDLE), ReleasePath(EPERS_MAXHANDLE)]
        == [Close(EPERS_MAXHANDLE)] + [ReleasePath(EPERS_MAXHANDLE)];
  }

  function FillAndDrain(r: Resource, path: string): seq<Op> {
    Opens(510, r) + [Open(r), CreatePath(path)] + Closes(510) + [Close(EPERS_MAXHANDLE), ReleasePath(EPERS_MAXHANDLE)]
  }

  /** The free list can get stuck: 511 opens and one path handle, all closed again, leave no handle at all. */
  lemma StuckReached(r: Resource, path: string)
    requires r.resourceId != ""
    ensures SafeRun(START, FillAndDrain(r, path))
    ensures var s := Run(START, FillAndDrain(r, path)); Stuck(s) && s.next == 511 && s.keys == map[] && s.paths == map[]
  {
    var full, codes := [Open(r), CreatePath(path)], [Close(EPERS_MAXHANDLE), ReleasePath(EPERS_MAXHANDLE)];
    OpensFill(510, r);
    FillBeyond(Run(START, Opens(510, r)), r, path);
    SafeConcat(START, Opens(510, r), full);
    ClosesDrain(510, r, path);
    SafeConcat(START, Opens(510, r) + full, Closes(510));
    CloseCodes(r, path);
    SafeConcat(START, Opens(510, r) + full + Closes(510), codes);
  }

  lemma StuckStep(s: State, op: Op)
    requires Ints(s) && Stuck(s) && s.next == 511 && op != Shutdown && op != Deinit
    ensures var t := Step(s, op).0; Stuck(t) && t.next == 511 && t.free == s.free
  {
    assert Take(s) == (s, EPERS_MAXHANDLE);
  }

  /** And then it stays so: until a shutdown or deinitialisation every open and every path creation fails. */
  lemma {:induction false} StuckStays(s: State, ops: seq<Op>, r: Resource, path: string)
    requires Ints(s) && Stuck(s) && s.next == 511 && Shutdown !in ops && Deinit !in ops
    ensures var t := Run(s, ops); Stuck(t) && t.next == 511 && t.free == s.free
    ensures OpenKey(Run(s, ops), r).1 == EPERS_MAXHANDLE && NewPath(Run(s, ops), path).1 == EPERS_MAXHANDLE
    decreases |ops|
  {
    if ops != [] {
      assert ops[0] in ops && forall op :: op in ops[1..] ==> op in ops;
      StuckStep(s, ops[0]);
      StuckStays(Step(s, ops[0]).0, ops[1..], r, path);
    } else {
      assert Take(s) == (s, EPERS_MAXHANDLE);
    }
  }
}
