/** The other half of handle fidelity: every call it excludes makes some handle name the wrong resource. */
module HandleMisuse {
  import opened RbShape
  import opened HandleRuns

  /** Some run of calls that are all beyond reproach opens a resource and gets a handle that names another one. */
  ghost predicate Misnames(s: State)
    requires Ints(s)
  {
    exists before: seq<Op>, r: Resource, after: seq<Op> ::
      SafeRun(s, before + [Open(r)] + after) && !Names(Run(s, before), r, after)
  }

  lemma ExclusiveNames(s: State)
    requires Exclusive(s)
    ensures !Misnames(s)
  {
    forall before: seq<Op>, r: Resource, after: seq<Op> | SafeRun(s, before + [Open(r)] + after)
      ensures Names(Run(s, before), r, after)
    {
      assert before + [Open(r)] + after == before + ([Open(r)] + after);
      SafeConcat(s, before, [Open(r)] + after);
      RunExclusive(s, before);
      FidelityFrom(Run(s, before), r, after);
    }
  }

  /** One open more, of anything but what the table already has under the number it will get. */
  lemma NextOpenMisnamed(s: State, before: seq<Op>)
    requires Ints(s) && SafeRun(s, before)
    requires var t := Run(s, before); var h := Take(t).1; h >= 1 && h in t.keys
    ensures Misnames(s)
  {
    var t := Run(s, before);
    var h := Take(t).1;
    var r := t.keys[h].(userNo := t.keys[h].userNo + 1);
    SafeConcat(s, before, [Open(r)]);
    assert before + [Open(r)] + [] == before + [Open(r)];
    assert [Open(r)][1..] == [];
    assert !Names(t, r, []);
  }

  /** The allocator will still come to this number: it is free, or ahead of the counter. */
  ghost predicate Ahead(s: State, h: int) {
    |s.free| < MAX_PERS_HANDLE && (h in s.free || s.next <= h < MAX_PERS_HANDLE - 1)
  }

  /** Opening r often enough brings the allocator there, and changes nothing that is in the tables. */
  lemma {:induction false} OpensReach(s: State, h: int, r: Resource) returns (opens: seq<Op>)
    requires Ints(s) && Ahead(s, h)
    ensures SafeRun(s, opens) && Take(Run(s, opens)).1 == h
    ensures var t := Run(s, opens);
      s.keys.Keys <= t.keys.Keys && t.paths == s.paths && t.pathTree == s.pathTree && |t.free| <= |s.free|
    decreases |s.free| + MAX_PERS_HANDLE - s.next
  {
    if Take(s).1 == h {
      return [];
    }
    var t := OpenKey(s, r).0;
    assert |s.free| > 0 ==> forall k :: k in s.free ==> k in t.free || k == Take(s).1;
    var rest := OpensReach(t, h, r);
    opens := [Open(r)] + rest;
    assert opens[1..] == rest;
  }

  /** A number that a table or the free list still has, on the free list once more. */
  lemma ReleaseMisnames(s: State, h: Key, r: Resource)
    requires Exclusive(s) && !SafeStep(s, ReleasePath(h))
    ensures Misnames(DropPath(s, h).0)
  {
    var t := DropPath(s, h).0;
    assert t.free == s.free + [h] && t.keys == s.keys;
    if h in s.keys {
      NextOpenMisnamed(t, []);
    } else {
      var u := OpenKey(t, r).0;
      assert u.free == s.free && h in u.keys;
      assert [Open(r)][1..] == [];
      var opens := OpensReach(u, h, r);
      SafeConcat(t, [Open(r)], opens);
      NextOpenMisnamed(t, [Open(r)] + opens);
    }
  }

  /** A key handle's number issued again, or a path handle's, which its owner then releases. */
  lemma ShutdownMisnames(s: State, h: Key, r: Resource)
    requires Exclusive(s) && 1 <= h < MAX_PERS_HANDLE - 1 && (h in s.keys || h in s.paths)
    ensures Misnames(CloseAll(s))
  {
    var t := CloseAll(s);
    var opens := OpensReach(t, h, r);
    if h in s.keys {
      NextOpenMisnamed(t, opens);
    } else {
      var u := Run(t, opens);
      var v := OpenKey(u, r).0;
      var tail := [Open(r), ReleasePath(h)];
      assert tail[1..] == [ReleasePath(h)] && tail[1..][1..] == [];
      assert u.paths == s.paths && v.paths == u.paths && v.pathTree && v.free == [];
      assert h in v.keys;
      var w := DropPath(v, h).0;
      assert Step(u, tail[0]).0 == v && Step(v, tail[1..][0]).0 == w;
      assert SafeRun(w, []) && Run(w, []) == w;
      assert SafeRun(v, tail[1..]) && Run(v, tail[1..]) == w;
      assert SafeRun(u, tail) && Run(u, tail) == w;
      SafeConcat(t, opens, tail);
      NextOpenMisnamed(t, opens + tail);
    }
  }

  /**
   Which calls keep fidelity, in every state it can be relied on: exactly the safe ones. After any other there is a run
   of safe calls in which an open returns a handle of another resource.
   */
  lemma SafeExactly(s: State, op: Op)
    requires Exclusive(s)
    ensures SafeStep(s, op) <==> !Misnames(Step(s, op).0)
    ensures SafeStep(s, op) <==> Exclusive(Step(s, op).0)
  {
    if SafeStep(s, op) {
      StepExclusive(s, op);
      ExclusiveNames(Step(s, op).0);
    } else {
      var r := Resource(0, "", 0, 0);
      if op.ReleasePath? {
        ReleaseMisnames(s, op.h, r);
      } else {
        var h: Key :| 1 <= h < MAX_PERS_HANDLE - 1 && (h in s.keys || h in s.paths);
        ShutdownMisnames(s, h, r);
      }
      if Exclusive(Step(s, op).0) {
        ExclusiveNames(Step(s, op).0);
      }
    }
  }

  /** A shutdown is harmless exactly when no handle from 1 to 510 is open. */
  lemma ShutdownExactly(s: State)
    requires Exclusive(s)
    ensures !Misnames(CloseAll(s)) <==> forall h: Key :: 1 <= h <= 510 ==> h !in s.keys && h !in s.paths
  {
    SafeExactly(s, Shutdown);
  }

  /**
   Releasing a path handle is harmless exactly if there has been one before, or the number is not positive, or it is
   nowhere in use and never to be issued by the counter, or the free list is about to be stuck.
   */
  lemma ReleaseExactly(s: State, h: Key)
    requires Exclusive(s)
    ensures !Misnames(DropPath(s, h).0) <==>
              || s.pathTree || h < 1 || |s.free| >= 511
              || (h !in s.keys && h !in s.free && (h < s.next || h >= 511))
  {
    SafeExactly(s, ReleasePath(h));
  }

  /** The shortest example: a release without any path tree frees a live key handle. */
  lemma ReleaseWithoutTreeBreaks(r: Resource, r2: Resource)
    requires r != r2
    ensures var s1 := Step(START, Open(r)); var s2 := Step(s1.0, ReleasePath(1)); var s3 := Step(s2.0, Open(r2));
      s1.1 == 1 && s3.1 == 1 && s3.0.keys == map[1 := r]
  {
    assert Step(START, Open(r)).0 == State(map[1 := r], map[], false, [], 2);
    assert Step(Step(START, Open(r)).0, ReleasePath(1)).0 == State(map[1 := r], map[], true, [1], 2);
  }
}
