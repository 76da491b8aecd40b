/** The tree of registered change notifications and the one callback (db_access.c, key.c). */
module Notifications {
  import opened Options
  import opened RbShape
  import opened RbTree

  const EPERS_NOTIFY_NOT_ALLOWED := -37
  const EPERS_NOT_INITIALIZED := -32

  /** What is registered, by hash of the database key, and gChangeNotifyCallback. */
  datatype State = State(hashes: set<Key>, callback: Option<int>)

  datatype Call = Register(hash: Key, callback: Option<int>) | Unregister(hash: Key)

  /** persistence_notify_on_change */
  function Notify(s: State, c: Call): State {
    match c
    case Register(h, cb) => if h in s.hashes then s else State(s.hashes + {h}, cb)
    case Unregister(h) =>
      if h !in s.hashes then s
      else State(s.hashes - {h}, if s.hashes == {h} then None else s.callback)
  }

  /** pclKeyRegisterNotifyOnChange lets only one callback in; unregistering is never refused. */
  predicate Admitted(s: State, c: Call) {
    c.Unregister? || s.callback == c.callback || s.callback.None?
  }

  function Step(s: State, c: Call): State {
    if Admitted(s, c) then Notify(s, c) else s
  }

  function Run(s: State, calls: seq<Call>): State
    decreases |calls|
  {
    if calls == [] then s else Run(Step(s, calls[0]), calls[1..])
  }

  /** The callback is there exactly as long as anything is registered. */
  predicate Consistent(s: State) {
    s.callback.Some? <==> s.hashes != {}
  }

  /** In every run whose callers pass a callback, the callback is there exactly while something is registered. */
  lemma {:induction false} RunConsistent(s: State, calls: seq<Call>)
    requires Consistent(s) && forall i :: 0 <= i < |calls| ==> calls[i].Register? ==> calls[i].callback.Some?
    ensures Consistent(Run(s, calls))
    decreases |calls|
  {
    if calls != [] {
      RunConsistent(Step(s, calls[0]), calls[1..]);
    }
  }

  /** The callback is the first registration's, and stays the same until everything is unregistered. */
  lemma StepKeepsCallback(s: State, c: Call)
    requires Consistent(s) && (c.Register? ==> c.callback.Some?)
    ensures var r := Step(s, c);
      r.callback == if r.hashes == {} then None
                    else if s.hashes == {} && c.Register? then c.callback
                    else s.callback
  {
  }

  lemma {:induction false} RunLast(s: State, p: seq<Call>, c: Call)
    ensures Run(s, p + [c]) == Step(Run(s, p), c)
    decreases |p|
  {
    if p == [] {
      assert [c][1..] == [] && p + [c] == [c];
    } else {
      assert (p + [c])[1..] == p[1..] + [c];
      RunLast(Step(s, p[0]), p[1..], c);
    }
  }

  /** What the last call about a hash asked for, apart from registrations with another callback than the current one. */
  predicate Wanted(s: State, calls: seq<Call>, h: Key)
    decreases |calls|
  {
    if calls == [] then h in s.hashes
    else
      var p, c := calls[..|calls| - 1], calls[|calls| - 1];
      if c.hash != h then Wanted(s, p, h)
      else if c.Unregister? then false
      else Run(s, p).callback in {None, c.callback} || Wanted(s, p, h)
  }

  /** After any run, what is registered is what was last asked for. */
  lemma {:induction false} RunRegisters(s: State, calls: seq<Call>, h: Key)
    ensures h in Run(s, calls).hashes <==> Wanted(s, calls, h)
    decreases |calls|
  {
    if calls != [] {
      var p, c := calls[..|calls| - 1], calls[|calls| - 1];
      assert calls == p + [c];
      RunLast(s, p, c);
      RunRegisters(s, p, h);
    }
  }

  lemma {:induction false} InRange(s: set<int>, lo: int, hi: int)
    requires lo <= hi && forall x :: x in s ==> lo <= x < hi
    ensures |s| <= hi - lo
    decreases hi - lo
  {
    if lo == hi {
      assert s == {};
    } else {
      InRange(s - {hi - 1}, lo, hi - 1);
      assert s <= (s - {hi - 1}) + {hi - 1};
    }
  }

  lemma KeysBelowSizeMax(m: map<Key, ()>)
    ensures |m| < SIZE_MAX
  {
    var s: set<int> := set k | k in m.Keys;
    assert s == m.Keys && |m| == |m.Keys|;
    InRange(s, -0x8000_0000, 0x1_0000_0000);
  }

  lemma With(m: map<Key, ()>, h: Key)
    requires h !in m
    ensures m[h := ()].Keys == m.Keys + {h} && |m[h := ()]| == |m| + 1
  {
    assert m[h := ()].Keys == m.Keys + {h};
    assert |m[h := ()]| == |m[h := ()].Keys| && |m| == |m.Keys|;
  }

  lemma Without(m: map<Key, ()>, h: Key)
    requires h in m
    ensures (m - {h}).Keys == m.Keys - {h} && |m - {h}| == |m| - 1 && |m| > 0
    ensures m - {h} == map[] <==> m.Keys == {h}
  {
    SizeWithout(m, h);
    assert (m - {h}).Keys == m.Keys - {h};
    if m - {h} == map[] {
      assert m.Keys - {h} == {};
    }
  }

  /** What the resource table and the pipe say about one call. */
  datatype Request = Request(initialised: bool, lookup: int, isLocal: bool, isKey: bool, delivered: bool)

  predicate Reaches(q: Request) {
    q.initialised && q.lookup == 0 && !q.isLocal && q.isKey
  }

  function Answer(q: Request): int {
    if !q.initialised then EPERS_NOT_INITIALIZED
    else if q.lookup != 0 then q.lookup
    else if !Reaches(q) then EPERS_NOTIFY_NOT_ALLOWED
    else if q.delivered then 0 else -1
  }

  /** The codes of the refusals, in the order in which the tests come. */
  lemma AnswerExactly(q: Request)
    ensures Answer(q) == 0 <==> Reaches(q) && q.delivered
    ensures Answer(q) == EPERS_NOT_INITIALIZED <==>
              !q.initialised || q.lookup == EPERS_NOT_INITIALIZED
    ensures q.initialised && q.lookup != 0 ==> Answer(q) == q.lookup
    ensures q.initialised && q.lookup == 0 ==>
              (Answer(q) == EPERS_NOTIFY_NOT_ALLOWED <==> q.isLocal || !q.isKey)
  {
  }

  class Registry {
    var gNotificationTree: RbTree?<()>
    var gChangeNotifyCallback: Option<int>

    ghost function Repr(): set<object>
      reads this, gNotificationTree
    {
      if gNotificationTree == null then {this} else
        var t: RbTree<()> := gNotificationTree; {this, t} + t.Nodes()
    }

    /** Nothing is inserted twice or erased in vain, so the counter of the tree is right. */
    ghost predicate Valid()
      reads Repr()
    {
      gNotificationTree != null ==> gNotificationTree.Valid() && gNotificationTree.Excess() == 0
    }

    ghost function Value(): State
      reads this, gNotificationTree
    {
      State(if gNotificationTree == null then {} else gNotificationTree.Contents().Keys, gChangeNotifyCallback)
    }

    constructor ()
      ensures Valid() && Value() == State({}, None) && fresh(Repr())
    {
      gNotificationTree, gChangeNotifyCallback := null, None;
    }

    method EnsureTree()
      requires Valid()
      modifies this
      ensures Valid() && gNotificationTree != null && Value() == old(Value())
      ensures forall o :: o in Repr() ==> o in old(Repr()) || fresh(o)
    {
      if gNotificationTree == null {
        gNotificationTree := new RbTree<()>();
      }
    }

    /** persistence_notify_on_change; `delivered` is whether the command reached the main loop's pipe. */
    method NotifyOnChange(c: Call, delivered: bool) returns (rval: int)
      requires Valid()
      modifies Repr()
      ensures Valid() && Value() == Notify(old(Value()), c) && rval == if delivered then 0 else -1
      ensures c.Register? && c.hash !in old(Value()).hashes ==> gChangeNotifyCallback == c.callback
      ensures forall o :: o in Repr() ==> o in old(Repr()) || fresh(o)
    {
      EnsureTree();
      assert allocated(Repr());
      Update(c);
      rval := if delivered then 0 else -1;
    }

    method Update(c: Call)
      requires Valid() && gNotificationTree != null
      modifies Repr()
      ensures Valid() && Value() == Notify(old(Value()), c)
      ensures forall o :: o in Repr() ==> o in old(Repr()) || fresh(o)
    {
      assert allocated(Repr());
      var found, _ := gNotificationTree.Find(c.hash);
      if c.Register? {
        if found.None? {
          AddHash(c.hash, c.callback);
        }
      } else if found.Some? {
        RemoveHash(c.hash);
      }
    }

    method InsertHash(h: Key)
      requires Valid() && gNotificationTree != null && h !in gNotificationTree.Contents()
      modifies gNotificationTree, gNotificationTree.Nodes()
      ensures Valid() && gNotificationTree.Contents() == old(gNotificationTree.Contents())[h := ()]
      ensures forall o :: o in gNotificationTree.Nodes() ==> o in old(gNotificationTree.Nodes()) || fresh(o)
    {
      With(gNotificationTree.Contents(), h);
      KeysBelowSizeMax(gNotificationTree.Contents());
      var _ := gNotificationTree.Insert(Item(h, ()));
    }

    method AddHash(h: Key, callback: Option<int>)
      requires Valid() && gNotificationTree != null && h !in gNotificationTree.Contents()
      modifies `gChangeNotifyCallback, gNotificationTree, gNotificationTree.Nodes()
      ensures Valid() && Value() == State(old(Value()).hashes + {h}, callback)
      ensures forall o :: o in gNotificationTree.Nodes() ==> o in old(gNotificationTree.Nodes()) || fresh(o)
    {
      ghost var m := gNotificationTree.Contents();
      InsertHash(h);
      assert allocated(gNotificationTree.Nodes());
      gChangeNotifyCallback := callback;
      With(m, h);
    }

    method EraseHash(h: Key)
      requires Valid() && gNotificationTree != null && h in gNotificationTree.Contents()
      modifies gNotificationTree, gNotificationTree.Nodes()
      ensures Valid() && gNotificationTree.Contents() == old(gNotificationTree.Contents()) - {h}
      ensures gNotificationTree.Nodes() <= old(gNotificationTree.Nodes())
    {
      Without(gNotificationTree.Contents(), h);
      var _ := gNotificationTree.Erase(h);
    }

    method RemoveHash(h: Key)
      requires Valid() && gNotificationTree != null && h in gNotificationTree.Contents()
      modifies `gChangeNotifyCallback, gNotificationTree, gNotificationTree.Nodes()
      ensures Valid() && Value() == Notify(old(Value()), Unregister(h))
      ensures gNotificationTree.Nodes() <= old(gNotificationTree.Nodes())
    {
      ghost var m := gNotificationTree.Contents();
      EraseHash(h);
      assert allocated(gNotificationTree.Nodes());
      DropCallbackIfEmpty();
      Without(m, h);
    }

    method DropCallbackIfEmpty()
      requires Valid() && gNotificationTree != null
      modifies `gChangeNotifyCallback
      ensures Valid()
      ensures gChangeNotifyCallback == if gNotificationTree.Contents() == map[] then None
          else old(gChangeNotifyCallback)
    {
      assert allocated(gNotificationTree.Nodes());
      var n := gNotificationTree.Size();
      if n == 0 {
        gChangeNotifyCallback := None;
      }
    }

    /**
     regNotifyOnChange. What the resource table says comes in as parameters: the result of the lookup, and whether the
     resource is a key and not local.
     */
    method RegNotifyOnChange(c: Call, q: Request) returns (rval: int)
      requires Valid()
      modifies Repr()
      ensures Valid() && Value() == (if Reaches(q) then Notify(old(Value()), c) else old(Value()))
      ensures rval == Answer(q)
      ensures forall o :: o in Repr() ==> o in old(Repr()) || fresh(o)
    {
      rval := EPERS_NOT_INITIALIZED;
      if q.initialised {
        rval := q.lookup;
        if rval == 0 {
          if !q.isLocal && q.isKey {
            rval := NotifyOnChange(c, q.delivered);
          } else {
            rval := EPERS_NOTIFY_NOT_ALLOWED;
          }
        }
      }
    }

    /** pclKeyRegisterNotifyOnChange: one callback only, whatever the resource. */
    method KeyRegister(h: Key, callback: Option<int>, q: Request) returns (rval: int)
      requires Valid()
      modifies Repr()
      ensures Valid() && Value() == (if Reaches(q) then Step(old(Value()), Register(h, callback)) else old(Value()))
      ensures rval == if old(gChangeNotifyCallback) in {None, callback} then Answer(q) else EPERS_NOTIFY_NOT_ALLOWED
      ensures forall o :: o in Repr() ==> o in old(Repr()) || fresh(o)
    {
      if gChangeNotifyCallback == callback || gChangeNotifyCallback.None? {
        rval := RegNotifyOnChange(Register(h, callback), q);
      } else {
        rval := EPERS_NOTIFY_NOT_ALLOWED;
      }
    }

    /** pclKeyUnRegisterNotifyOnChange asks nobody for the callback. */
    method KeyUnregister(h: Key, q: Request) returns (rval: int)
      requires Valid()
      modifies Repr()
      ensures Valid() && Value() == (if Reaches(q) then Step(old(Value()), Unregister(h)) else old(Value()))
      ensures rval == Answer(q)
      ensures forall o :: o in Repr() ==> o in old(Repr()) || fresh(o)
    {
      rval := RegNotifyOnChange(Unregister(h), q);
    }
  }
}
