/**
 Runs of the handle API, on values: the key-handle table, the path-handle table and the allocator they share.
 One step of a run is one API call under its lock.
 */
module HandleRuns {
  import opened Options
  import opened RbShape

  const MAX_PERS_HANDLE := 512
  const EPERS_MAXHANDLE := -4
  const EPERS_INVALID_HANDLE := -1000

  datatype Resource = Resource(ldbid: nat, resourceId: string, userNo: nat, seatNo: nat)

  datatype State = State(
    keys: map<Key, Resource>,          // gKeyHandleTree
    paths: map<Key, string>,           // gOssFileHandleTree, reduced to the path it was opened for
    pathTree: bool,                    // gOssFileHandleTree exists
    free: seq<int>,                    // gFreeHandleArray[..gFreeHandleIdxHead]
    next: int)                         // gHandleIdx

  const START := State(map[], map[], false, [], 1)

  // ---------- the allocator ----------

  function Take(s: State): (State, int) {
    if 0 < |s.free| < MAX_PERS_HANDLE then (s.(free := s.free[..|s.free| - 1]), s.free[|s.free| - 1])
    else if s.next < MAX_PERS_HANDLE - 1 then (s.(next := s.next + 1), s.next)
    else (s, EPERS_MAXHANDLE)
  }

  function Give(s: State, h: int): State {
    if |s.free| < MAX_PERS_HANDLE then s.(free := s.free + [h]) else s
  }

  function Insert<R>(m: map<Key, R>, h: Key, r: R): map<Key, R> {
    if h in m then m else m[h := r]
  }

  ghost predicate IsKey(h: int) {
    -0x8000_0000 <= h <= 0xFFFF_FFFF
  }

  /** Every number the allocator can hand out is a C int. */
  ghost predicate Ints(s: State) {
    1 <= s.next < MAX_PERS_HANDLE && |s.free| <= MAX_PERS_HANDLE && forall i :: 0 <= i < |s.free| ==> IsKey(s.free[i])
  }

  // ---------- the calls ----------

  datatype Op =
    | Open(r: Resource)
    | Close(h: Key)
    | CreatePath(path: string)
    | ReleasePath(h: Key)
    | Shutdown  // a full shutdown of the lifecycle interface; the application goes on afterwards
    | Deinit    // the same on pclDeinitLibrary, which also deletes the tables

  function OpenKey(s: State, r: Resource): (State, int)
    requires Ints(s)
  {
    var (s1, h) := Take(s);
    (s1.(keys := Insert(s1.keys, h, r)), h)
  }

  function CloseKey(s: State, h: Key): (State, int) {
    if h !in s.keys then (s, EPERS_MAXHANDLE)
    else if s.keys[h].resourceId == "" then (s, EPERS_INVALID_HANDLE)
    else (Give(s, h).(keys := s.keys - {h}), 1)
  }

  /** Only here the number is looked at: -1 is returned and recorded nowhere, one from 512 up is put back. */
  function NewPath(s: State, path: string): (State, int)
    requires Ints(s)
  {
    var (s1, h) := Take(s);
    if h == -1 then (s1, h)
    else if h < MAX_PERS_HANDLE then (s1.(paths := s1.paths[h := path], pathTree := true), h)
    else (Give(s1, h), EPERS_MAXHANDLE)
  }

  /** Without a tree the permission query answers LastEntry, which passes for a known handle. */
  function DropPath(s: State, h: Key): (State, int) {
    if s.pathTree && h !in s.paths then (s, EPERS_MAXHANDLE)
    else (Give(s, h).(paths := s.paths - {h}, pathTree := true), 1)
  }

  /** close_all_persistence_handle: the numbers start again, the tables stay. */
  function CloseAll(s: State): State {
    s.(free := [], next := 1)
  }

  function Step(s: State, op: Op): (r: (State, int))
    requires Ints(s)
    ensures Ints(r.0)
  {
    match op
    case Open(r) => OpenKey(s, r)
    case Close(h) => CloseKey(s, h)
    case CreatePath(p) => NewPath(s, p)
    case ReleasePath(h) => DropPath(s, h)
    case Shutdown => (CloseAll(s), 0)
    case Deinit => (START, 1)
  }

  function Run(s: State, ops: seq<Op>): (r: State)
    requires Ints(s)
    ensures Ints(r)
    decreases |ops|
  {
    if ops == [] then s else Run(Step(s, ops[0]).0, ops[1..])
  }

  // ---------- fidelity: a handle keeps naming the resource it was opened for ----------

  /** The counter will never issue this number: it is past it, or would have to go beyond 510. */
  ghost predicate Spent(s: State, h: int) {
    h < s.next || h >= MAX_PERS_HANDLE - 1
  }

  /** A free list of 512 entries is stuck: nothing is taken from it any more, and nothing added. */
  ghost predicate Stuck(s: State) {
    |s.free| >= MAX_PERS_HANDLE
  }

  /** A positive number is in at most one place: still to be issued, free, a key handle or a path handle. */
  ghost predicate Exclusive(s: State) {
    && Ints(s)
    && (forall h :: h in s.keys && h >= 1 ==> Spent(s, h) && h !in s.paths)
    && (forall h :: h in s.paths && h >= 1 ==> Spent(s, h))
    && (!Stuck(s) ==> FreeApart(s))
    && (!s.pathTree ==> s.paths == map[])
  }

  ghost predicate FreeApart(s: State) {
    && (forall h :: h in s.keys && h >= 1 ==> h !in s.free)
    && (forall h :: h in s.paths && h >= 1 ==> h !in s.free)
    && (forall i :: 0 <= i < |s.free| && s.free[i] >= 1 ==> Spent(s, s.free[i]))
    && (forall i, j :: 0 <= i < j < |s.free| && s.free[i] >= 1 ==> s.free[i] != s.free[j])
  }

  /**
   Two calls need care. pclFileReleasePath before any pclFileCreatePath puts whatever number it is given on the free
   list, unless that is about to be stuck; and a shutdown issues again what handles still have.
   */
  ghost predicate SafeStep(s: State, op: Op) {
    match op
    case ReleasePath(h) =>
      h >= 1 && !s.pathTree ==> |s.free| >= MAX_PERS_HANDLE - 1 || (h !in s.keys && h !in s.free && Spent(s, h))
    case Shutdown => forall h: Key :: 1 <= h < MAX_PERS_HANDLE - 1 ==> h !in s.keys && h !in s.paths
    case _ => true
  }

  ghost predicate SafeRun(s: State, ops: seq<Op>)
    requires Ints(s)
    decreases |ops|
  {
    ops != [] ==> SafeStep(s, ops[0]) && SafeRun(Step(s, ops[0]).0, ops[1..])
  }

  lemma TakeFresh(s: State)
    requires Exclusive(s)
    ensures var (s1, h) := Take(s);
      Exclusive(s1) && (h >= 1 ==> h !in s.keys && h !in s.paths && Spent(s1, h) && (!Stuck(s1) ==> h !in s1.free))
  {
    if 0 < |s.free| < MAX_PERS_HANDLE {
      assert s.free[|s.free| - 1] in s.free;
    }
  }

  /** Putting back a positive number that nothing refers to any more. */
  lemma GiveExclusive(s: State, h: int)
    requires Exclusive(s) && IsKey(h)
    requires |s.free| < MAX_PERS_HANDLE - 1 && h >= 1 ==> Spent(s, h) && h !in s.keys && h !in s.paths && h !in s.free
    ensures Exclusive(Give(s, h))
  {
    var t := Give(s, h);
    assert forall k :: k in t.free ==> k in s.free || k == h;
  }

  lemma DropExclusive(s: State, keys: map<Key, Resource>, paths: map<Key, string>)
    requires Exclusive(s) && keys.Keys <= s.keys.Keys && paths.Keys <= s.paths.Keys
    ensures Exclusive(s.(keys := keys, paths := paths))
  {
  }

  lemma OpenExclusive(s: State, r: Resource)
    requires Exclusive(s)
    ensures var (t, h) := OpenKey(s, r);
      && Exclusive(t) && (h >= 1 ==> h !in s.keys && t.keys == s.keys[h := r])
      && forall k :: k in s.keys ==> k in t.keys && t.keys[k] == s.keys[k]
  {
    TakeFresh(s);
  }

  lemma CloseExclusive(s: State, h: Key)
    requires Exclusive(s)
    ensures var t := CloseKey(s, h).0;
      && Exclusive(t)
      && forall k :: k in s.keys && k != h ==> k in t.keys && t.keys[k] == s.keys[k]
  {
    if h in s.keys && s.keys[h].resourceId != "" {
      var t := s.(keys := s.keys - {h});
      DropExclusive(s, t.keys, s.paths);
      GiveExclusive(t, h);
    }
  }

  lemma NewPathExclusive(s: State, path: string)
    requires Exclusive(s)
    ensures Exclusive(NewPath(s, path).0) && NewPath(s, path).0.keys == s.keys
  {
    TakeFresh(s);
    var (s1, h) := Take(s);
    if h >= MAX_PERS_HANDLE {
      GiveExclusive(s1, h);
    } else if h != -1 {
      RecordExclusive(s1, h, path);
    }
  }

  /** A path handle with a number that nothing else refers to. */
  lemma RecordExclusive(s: State, h: Key, path: string)
    requires Exclusive(s)
    requires h >= 1 ==> h !in s.keys && h !in s.paths && Spent(s, h) && (!Stuck(s) ==> h !in s.free)
    ensures Exclusive(s.(paths := s.paths[h := path], pathTree := true))
  {
  }

  lemma DropPathExclusive(s: State, h: Key)
    requires Exclusive(s) && SafeStep(s, ReleasePath(h))
    ensures Exclusive(DropPath(s, h).0) && DropPath(s, h).0.keys == s.keys
  {
    if h in s.paths || !s.pathTree {
      var t := s.(paths := s.paths - {h}, pathTree := true);
      DropExclusive(s, s.keys, t.paths);
      GiveExclusive(t, h);
    }
  }

  lemma StepExclusive(s: State, op: Op)
    requires Exclusive(s) && SafeStep(s, op)
    ensures Exclusive(Step(s, op).0)
    ensures forall h :: h in s.keys && op != Close(h) && op != Deinit ==>
                          h in Step(s, op).0.keys && Step(s, op).0.keys[h] == s.keys[h]
  {
    match op
    case Open(r) => OpenExclusive(s, r);
    case CreatePath(p) => NewPathExclusive(s, p);
    case Close(h) => CloseExclusive(s, h);
    case ReleasePath(h) => DropPathExclusive(s, h);
    case Shutdown =>
    case Deinit =>
  }

  lemma {:induction false} Keeps(s: State, ops: seq<Op>, h: Key)
    requires Exclusive(s) && SafeRun(s, ops) && h in s.keys && Close(h) !in ops && Deinit !in ops
    ensures h in Run(s, ops).keys && Run(s, ops).keys[h] == s.keys[h]
    decreases |ops|
  {
    if ops != [] {
      StepExclusive(s, ops[0]);
      Keeps(Step(s, ops[0]).0, ops[1..], h);
    }
  }

  lemma {:induction false} RunExclusive(s: State, ops: seq<Op>)
    requires Exclusive(s) && SafeRun(s, ops)
    ensures Exclusive(Run(s, ops))
    decreases |ops|
  {
    if ops != [] {
      StepExclusive(s, ops[0]);
      RunExclusive(Step(s, ops[0]).0, ops[1..]);
    }
  }

  lemma {:induction false} SafeConcat(s: State, a: seq<Op>, b: seq<Op>)
    requires Ints(s)
    ensures SafeRun(s, a + b) <==> SafeRun(s, a) && SafeRun(Run(s, a), b)
    ensures Run(s, a + b) == Run(Run(s, a), b)
    decreases |a|
  {
    if a == [] {
      assert a + b == b;
    } else {
      var t := Step(s, a[0]).0;
      assert (a + b)[0] == a[0] && (a + b)[1..] == a[1..] + b;
      SafeConcat(t, a[1..], b);
    }
  }

  /**
   In every run, a handle >= 1 that an open returned names that open's resource until it is closed or the library is
   deinitialised.
   */
  lemma Fidelity(before: seq<Op>, r: Resource, after: seq<Op>)
    requires SafeRun(START, before + [Open(r)] + after)
    ensures var (s, h) := OpenKey(Run(START, before), r);
      h >= 1 ==> h !in Run(START, before).keys && Names(Run(START, before), r, after)
  {
    assert before + [Open(r)] + after == before + ([Open(r)] + after);
    SafeConcat(START, before, [Open(r)] + after);
    RunExclusive(START, before);
    FidelityFrom(Run(START, before), r, after);
  }

  /** The handle that opening r gets in s names r after these calls. */
  ghost predicate Names(s: State, r: Resource, after: seq<Op>)
    requires Ints(s)
  {
    var (t, h) := OpenKey(s, r);
    h >= 1 && Close(h) !in after && Deinit !in after ==> h in Run(t, after).keys && Run(t, after).keys[h] == r
  }

  lemma FidelityFrom(s: State, r: Resource, after: seq<Op>)
    requires Exclusive(s) && SafeRun(s, [Open(r)] + after)
    ensures OpenKey(s, r).1 >= 1 ==> OpenKey(s, r).1 !in s.keys
    ensures Names(s, r, after)
  {
    var (t, h) := OpenKey(s, r);
    OpenExclusive(s, r);
    assert ([Open(r)] + after)[1..] == after;
    assert SafeRun(t, after);
    if h >= 1 && Close(h) !in after && Deinit !in after {
      Keeps(t, after, h);
    }
  }

  // ---------- the same for path handles ----------

  lemma StepKeepsPath(s: State, op: Op, h: Key)
    requires Exclusive(s) && SafeStep(s, op) && h in s.paths && h >= 1 && op != ReleasePath(h) && op != Deinit
    ensures h in Step(s, op).0.paths && Step(s, op).0.paths[h] == s.paths[h]
  {
    TakeFresh(s);
  }

  lemma {:induction false} KeepsPath(s: State, ops: seq<Op>, h: Key)
    requires Exclusive(s) && SafeRun(s, ops) && h in s.paths && h >= 1 && ReleasePath(h) !in ops && Deinit !in ops
    ensures h in Run(s, ops).paths && Run(s, ops).paths[h] == s.paths[h]
    decreases |ops|
  {
    if ops != [] {
      StepKeepsPath(s, ops[0], h);
      StepExclusive(s, ops[0]);
      KeepsPath(Step(s, ops[0]).0, ops[1..], h);
    }
  }

  /** A path handle >= 1 stays with the path it was created for until it is released. */
  lemma PathFidelity(before: seq<Op>, path: string, after: seq<Op>)
    requires SafeRun(START, before + [CreatePath(path)] + after)
    ensures var (t, h) := NewPath(Run(START, before), path);
      h >= 1 && ReleasePath(h) !in after && Deinit !in after ==>
        h in Run(t, after).paths && Run(t, after).paths[h] == path
  {
    var s := Run(START, before);
    assert before + [CreatePath(path)] + after == before + ([CreatePath(path)] + after);
    SafeConcat(START, before, [CreatePath(path)] + after);
    RunExclusive(START, before);
    assert ([CreatePath(path)] + after)[1..] == after;
    NewPathExclusive(s, path);
    var (t, h) := NewPath(s, path);
    if h >= 1 && ReleasePath(h) !in after && Deinit !in after {
      KeepsPath(t, after, h);
    }
  }

  // ---------- what closing answers ----------

  /** A close succeeds once: on a handle that is open for a named resource, and then no more. */
  lemma CloseAnswers(before: seq<Op>, r: Resource, after: seq<Op>)
    requires SafeRun(START, before + [Open(r)] + after) && r.resourceId != ""
    ensures var (t, h) := OpenKey(Run(START, before), r); var s := Run(t, after);
      h >= 1 && Close(h) !in after && Deinit !in after ==>
        && CloseKey(s, h).1 == 1 && CloseKey(CloseKey(s, h).0, h) == (CloseKey(s, h).0, EPERS_MAXHANDLE)
        && CloseKey(s, h).0.keys == s.keys - {h}
  {
    Fidelity(before, r, after);
  }

  /** Everything else is refused, with a code of its own for a handle opened with an empty resource id. */
  lemma CloseRefuses(s: State, h: Key)
    ensures CloseKey(s, h).1 != 1 <==> h !in s.keys || s.keys[h].resourceId == ""
    ensures CloseKey(s, h).1 != 1 ==> CloseKey(s, h).0 == s
    ensures CloseKey(s, h).1 == EPERS_MAXHANDLE <==> h !in s.keys
  {
  }

  /** A path creation records its path under the number it answers; a number from 512 up is put back where it was. */
  lemma CreateAnswers(s: State, path: string)
    requires Ints(s)
    ensures var (t, n) := NewPath(s, path); var h := Take(s).1;
      && t.keys == s.keys
      && (h >= 512 ==> t == s && n == EPERS_MAXHANDLE)
      && (h < 512 ==> n == h && t.paths == if h == -1 then s.paths else s.paths[h := path])
  {
  }

  /** A release succeeds on a known path handle, and on anything before the first path handle. */
  lemma ReleaseAnswers(s: State, h: Key)
    ensures var (t, n) := DropPath(s, h);
      && (n == 1 <==> h in s.paths || !s.pathTree) && (n != 1 ==> t == s && n == EPERS_MAXHANDLE)
      && t.paths == s.paths - {h} && t.keys == s.keys
  {
  }
}
