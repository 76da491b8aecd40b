/** Keys and layered lookup together: what one resource's readers see of everybody else's calls. */
module DbIsolation {
  import opened Options
  import opened DbCache
  import opened DbLookup
  import opened DbKeys

  /** What the resource table says of a resource; nothing makes the storage class agree with the ldbid. */
  datatype Entry = Entry(storage: Storage, policy: DbType) {
    predicate Valid() {
      policy == POLICY_WC || policy == POLICY_WT
    }
  }

  /** The call the key API makes for a resource with this entry. */
  function AccessOf(n: Name, e: Entry): Access {
    Access(e.storage, n.ldbid, e.policy, n.user, Key(n), n.resource)
  }

  predicate Usual(n: Name) {
    !StartsWithSeat(n.resource)
  }

  /** Directory and key together name the resource. */
  lemma AddressExactly(a: Name, b: Name)
    requires Usual(a) && Usual(b)
    ensures PlaceOf(a.ldbid) == PlaceOf(b.ldbid) && Key(a) == Key(b) <==> a == b
  {
    if !(Plain(a.ldbid) && Plain(b.ldbid) && a.ldbid != b.ldbid) {
      KeysInjective(a, b);
    }
  }

  /** A call of the key API on behalf of resource n. */
  ghost predicate CallFor(op: Op, n: Name) {
    !op.CloseAll? && exists e: Entry :: op.a == AccessOf(n, e) && e.Valid()
  }

  /** A call that is none of this resource's business: somebody else's, and not about the defaults. */
  ghost predicate Foreign(op: Op, n: Name) {
    op.CloseAll? || exists m: Name :: Usual(m) && m != n && m.user != PCL_USER_DEFAULTDATA && CallFor(op, m)
  }

  lemma ForeignChangesNothing(broken: set<DbId>, op: Op, n: Name, e: Entry)
    requires Usual(n) && Foreign(op, n) && e.Valid()
    ensures ChangeBy(broken, op, DbOf(AccessOf(n, e), e.policy), Key(n)) == Untouched
    ensures forall t: DbType :: t >= DB_CONFDEFAULT ==>
                                  ChangeBy(broken, op, DbOf(AccessOf(n, e), t), n.resource) == Untouched
  {
    if !op.CloseAll? {
      var m: Name :| Usual(m) && m != n && m.user != PCL_USER_DEFAULTDATA && CallFor(op, m);
      AddressExactly(m, n);
    }
  }

  lemma {:induction false} ForeignRunChangesNothing(broken: set<DbId>, ops: seq<Op>, n: Name, e: Entry)
    requires Usual(n) && e.Valid()
    requires forall i :: 0 <= i < |ops| ==> Foreign(ops[i], n)
    ensures LastChange(broken, ops, DbOf(AccessOf(n, e), e.policy), Key(n)) == Untouched
    ensures forall t: DbType :: t >= DB_CONFDEFAULT ==>
                                  LastChange(broken, ops, DbOf(AccessOf(n, e), t), n.resource) == Untouched
    decreases |ops|
  {
    if ops != [] {
      ForeignChangesNothing(broken, ops[|ops| - 1], n, e);
      ForeignRunChangesNothing(broken, ops[..|ops| - 1], n, e);
      assert forall i :: 0 <= i < |ops| - 1 ==> ops[..|ops| - 1][i] == ops[i];
    }
  }

  /** Neither the run nor the reads before and after it are led astray by the handle cache. */
  predicate Undisturbed(w: World, ops: seq<Op>, a: Access) {
    HomeRun(w, ops) && HomeRead(w, a) && HomeRead(Run(w, ops), a)
  }

  /**
   Isolation: whatever is read, written and deleted for other users, seats, logical databases or resource ids, and
   however often all databases are closed, this resource reads as before.
   */
  lemma Isolation(w: World, ops: seq<Op>, n: Name, e: Entry)
    requires Sound(w) && Usual(n) && e.Valid()
    requires Undisturbed(w, ops, AccessOf(n, e))
    requires forall i :: 0 <= i < |ops| ==> Foreign(ops[i], n)
    ensures Get(Run(w, ops), AccessOf(n, e)).1 == Get(w, AccessOf(n, e)).1
  {
    var a := AccessOf(n, e);
    ForeignRunChangesNothing(w.broken, ops, n, e);
    ReadAfterRun(w, ops, a, PlaceOf(a.ldbid));
    GetIsLayered(w, a);
    assert LastChange(w.broken, ops, DbOf(a, DB_CONFDEFAULT), a.resource) == Untouched;
    assert LastChange(w.broken, ops, DbOf(a, DB_DEFAULT), a.resource) == Untouched;
  }

  /** Its own last write is what it reads, whatever foreign calls come in between. */
  lemma ReadsOwnWrite(w: World, ops: seq<Op>, n: Name, e: Entry, data: Bytes, notified: bool)
    requires Sound(w) && Usual(n) && n.user != PCL_USER_DEFAULTDATA && e.Valid()
    requires Reachable(w.broken, AccessOf(n, e), e.policy)
    requires var op := OpSet(AccessOf(n, e), data, notified);
      AllHome(w.broken, w.cache, Calls(w, op)) && Undisturbed(Step(w, op), ops, AccessOf(n, e))
    requires forall i :: 0 <= i < |ops| ==> Foreign(ops[i], n)
    ensures Get(Run(Step(w, OpSet(AccessOf(n, e), data, notified)), ops), AccessOf(n, e)).1
        == DbLookup.Value(data)
  {
    var a, op := AccessOf(n, e), OpSet(AccessOf(n, e), data, notified);
    StepCalls(w, op);
    StepChanges(w, op, DbOf(a, e.policy), Key(n));
    Isolation(Step(w, op), ops, n, e);
    GetIsLayered(Step(w, op), a);
  }

  // ---------- when the cache is out of the way ----------

  /** The storage class of every resource agrees with its ldbid. */
  ghost predicate Agreeing(ops: seq<Op>) {
    forall a :: Mentioned(ops, a) ==> (a.storage == Shared <==> a.ldbid < 0x80)
  }

  ghost predicate Uses(ops: seq<Op>, ldbid: Ldbid) {
    exists a :: Mentioned(ops, a) && a.ldbid == ldbid
  }

  ghost predicate Apart(ops: seq<Op>) {
    forall a, b :: Mentioned(ops, a) && Mentioned(ops, b) ==> !Confused(a, b)
  }

  /** Resources that agree with their ldbids are apart if and only if they are not of both 0x7F and 0x80. */
  lemma AgreeingApart(ops: seq<Op>)
    requires Agreeing(ops)
    ensures Apart(ops) <==> !(Uses(ops, 0x7F) && Uses(ops, 0x80))
  {
    forall a, b | Mentioned(ops, a) && Mentioned(ops, b)
      ensures Confused(a, b) <==> (a.ldbid == 0x7F && b.ldbid == 0x80) || (a.ldbid == 0x80 && b.ldbid == 0x7F)
    {
      AgreeingCollision(a, b);
    }
  }

  /** The condition of Isolation, from the resources alone: no two of those involved are confused with each other. */
  lemma ApartUndisturbed(w: World, ops: seq<Op>, n: Name, e: Entry)
    requires w.cache == map[] && Apart([OpGet(AccessOf(n, e))] + ops)
    ensures Undisturbed(w, ops, AccessOf(n, e))
  {
    var a := AccessOf(n, e);
    var all := [OpGet(a)] + ops;
    var last := ops + [OpGet(a)];
    Subrun([OpGet(a)], all);
    Subrun(ops, all);
    Subrun(last, all);
    ApartRun(w, [OpGet(a)]);
    ApartRun(w, ops);
    ApartRun(w, last);
    assert [OpGet(a)][..0] == [] && last[..|ops|] == ops;
    assert Trace(w, [OpGet(a)]) == ReadCalls(w, a);
    assert Trace(w, last) == Trace(w, ops) + ReadCalls(Run(w, ops), a);
    HomeConcat(w.broken, w.cache, Trace(w, ops), ReadCalls(Run(w, ops), a));
    RunCalls(w, ops);
  }

  lemma Subrun(part: seq<Op>, all: seq<Op>)
    requires forall op :: op in part ==> op in all
    ensures forall a :: Mentioned(part, a) ==> Mentioned(all, a)
    ensures Apart(all) ==> Apart(part)
  {
    forall a | Mentioned(part, a) ensures Mentioned(all, a) {
      var i :| 0 <= i < |part| && !part[i].CloseAll? && part[i].a == a;
      assert part[i] in all;
      var j :| 0 <= j < |all| && all[j] == part[i];
    }
  }
}
