/**
 database_get of src/persistence_client_library_db_access.c: the cache of database handles, one cell for each sum of
 storage class and ldbid and each kind of database, and exactly when it leads every call to its own database.
 */
module DbCache {
  import opened Options

  type Ldbid = n: int | 0 <= n < 0x1_0000_0000

  const DB_TABLE_SIZE := 1024

  /** Column of the handle cache: the two policies, then the two defaults. */
  type DbType = t: int | 0 <= t < DB_LAST_ENTRY
  const POLICY_WC := 0
  const POLICY_WT := 1
  const DB_CONFDEFAULT := 2
  const DB_DEFAULT := 3
  const DB_LAST_ENTRY := 4

  datatype Storage = Local | Shared

  /** The directory a logical database lives in. */
  datatype Place = LocalData | PublicData | GroupData(id: nat)

  datatype DbId = DbId(place: Place, db: DbType)

  /** What a call of the database layer knows of its resource; the storage class comes from the resource table. */
  datatype Access = Access(storage: Storage, ldbid: Ldbid, policy: DbType, user: Ldbid, key: string, resource: string)

  /** get_db_path_and_key, the path half */
  function PlaceOf(ldbid: Ldbid): Place {
    if ldbid >= 0x80 then LocalData else if ldbid == 0 then PublicData else GroupData(ldbid)
  }

  /** Local data from 0x80 on, public data at 0, and a group for each number in between. */
  predicate Lives(ldbid: Ldbid, place: Place) {
    match place
    case LocalData => ldbid >= 0x80
    case PublicData => ldbid == 0
    case GroupData(g) => 1 <= ldbid <= 0x7F && g == ldbid
  }

  lemma PlaceExactly(ldbid: Ldbid, place: Place)
    ensures PlaceOf(ldbid) == place <==> Lives(ldbid, place)
  {
  }

  /** The next unsigned int. */
  function Successor(n: Ldbid): Ldbid {
    if n == 0xFFFF_FFFF then 0 else n + 1
  }

  /** Row of the handle cache: the unsigned sum of storage class, 0 or 1, and ldbid. */
  function Index(a: Access): nat {
    if a.storage == Shared then Successor(a.ldbid) else a.ldbid
  }

  function DbOf(a: Access, t: DbType): DbId {
    DbId(PlaceOf(a.ldbid), t)
  }

  /** A call can open its own database. */
  predicate Reachable(broken: set<DbId>, a: Access, t: DbType) {
    Index(a) < DB_TABLE_SIZE && DbOf(a, t) !in broken
  }

  /** The open handles, by the database each leads to. */
  type Cache = map<(nat, DbType), DbId>

  /** database_get: the database the returned handle leads to; `broken` are the paths that cannot be opened. */
  function PickFrom(broken: set<DbId>, c: Cache, a: Access, t: DbType): Option<DbId> {
    if Index(a) >= DB_TABLE_SIZE then None
    else if (Index(a), t) in c then Some(c[(Index(a), t)])
    else if DbOf(a, t) in broken then None
    else Some(DbOf(a, t))
  }

  function TouchIn(broken: set<DbId>, c: Cache, a: Access, t: DbType): Cache {
    if PickFrom(broken, c, a, t).None? then c else c[(Index(a), t) := PickFrom(broken, c, a, t).value]
  }

  /** Two contexts of one row that live in different places. */
  predicate Confused(a: Access, b: Access) {
    Index(a) == Index(b) && PlaceOf(a.ldbid) != PlaceOf(b.ldbid)
  }

  /**
   All pairs of contexts that the row number mistakes for each other: the storage classes differ, the local ldbid is the
   next after the shared one, and the shared one really is shared, or the sum has wrapped around.
   */
  lemma CacheCollision(a: Access, b: Access)
    ensures Confused(a, b) <==>
              && a.storage != b.storage
              && var (l, s) := if a.storage == Local then (a.ldbid, b.ldbid) else (b.ldbid, a.ldbid);
                 l == Successor(s) && (s < 0x80 || l == 0)
  {
  }

  /** With storage classes that agree with the ldbids, one pair is left. */
  lemma AgreeingCollision(a: Access, b: Access)
    requires (a.storage == Shared <==> a.ldbid < 0x80) && (b.storage == Shared <==> b.ldbid < 0x80)
    ensures Confused(a, b) <==> (a.ldbid == 0x7F && b.ldbid == 0x80) || (a.ldbid == 0x80 && b.ldbid == 0x7F)
  {
  }

  // ---------- runs of calls ----------

  datatype DbCall = Ask(a: Access, t: DbType) | Close

  function CacheAfter(broken: set<DbId>, c: Cache, x: DbCall): Cache {
    match x
    case Ask(a, t) => TouchIn(broken, c, a, t)
    case Close => map[]
  }

  function CacheFrom(broken: set<DbId>, c: Cache, calls: seq<DbCall>): Cache
    decreases |calls|
  {
    if calls == [] then c else CacheFrom(broken, CacheAfter(broken, c, calls[0]), calls[1..])
  }

  /** The call leads to its own database, or to none. */
  predicate Home(broken: set<DbId>, c: Cache, x: DbCall) {
    x.Ask? ==> PickFrom(broken, c, x.a, x.t) in {None, Some(DbOf(x.a, x.t))}
  }

  predicate AllHome(broken: set<DbId>, c: Cache, calls: seq<DbCall>)
    decreases |calls|
  {
    calls == [] || (Home(broken, c, calls[0]) && AllHome(broken, CacheAfter(broken, c, calls[0]), calls[1..]))
  }

  lemma {:induction false} HomeConcat(broken: set<DbId>, c: Cache, x: seq<DbCall>, y: seq<DbCall>)
    ensures CacheFrom(broken, c, x + y) == CacheFrom(broken, CacheFrom(broken, c, x), y)
    ensures AllHome(broken, c, x + y) <==> AllHome(broken, c, x) && AllHome(broken, CacheFrom(broken, c, x), y)
    decreases |x|
  {
    if x == [] {
      assert x + y == y;
    } else {
      assert (x + y)[0] == x[0] && (x + y)[1..] == x[1..] + y;
      HomeConcat(broken, CacheAfter(broken, c, x[0]), x[1..], y);
    }
  }

  lemma HomeLast(broken: set<DbId>, c: Cache, p: seq<DbCall>, x: DbCall)
    ensures CacheFrom(broken, c, p + [x]) == CacheAfter(broken, CacheFrom(broken, c, p), x)
    ensures AllHome(broken, c, p + [x]) <==> AllHome(broken, c, p) && Home(broken, CacheFrom(broken, c, p), x)
  {
    HomeConcat(broken, c, p, [x]);
    assert [x][1..] == [];
  }

  predicate NoClose(calls: seq<DbCall>, k: nat, n: nat)
    requires k <= n <= |calls|
  {
    forall i :: k <= i < n ==> calls[i].Ask?
  }

  /** Since the last close, call k asked for cell (i, t) on a path that opens. */
  predicate Opener(broken: set<DbId>, calls: seq<DbCall>, k: nat, n: nat, i: nat, t: DbType)
    requires n <= |calls|
  {
    k < n && NoClose(calls, k, n) && Index(calls[k].a) == i && calls[k].t == t && Reachable(broken, calls[k].a, t)
  }

  /** No call finds in its cell what an earlier call from another place has opened. */
  ghost predicate Compatible(broken: set<DbId>, calls: seq<DbCall>) {
    forall n :: 0 <= n < |calls| ==> FitsIn(broken, calls, n)
  }

  ghost predicate FitsIn(broken: set<DbId>, calls: seq<DbCall>, n: nat)
    requires n < |calls|
  {
    calls[n].Ask? ==>
      forall k :: 0 <= k < n && Opener(broken, calls, k, n, Index(calls[n].a), calls[n].t) ==>
                    PlaceOf(calls[k].a.ldbid) == PlaceOf(calls[n].a.ldbid)
  }

  /** While all calls lead home, the cache holds exactly what the openers since the last close asked for. */
  ghost predicate Remembers(broken: set<DbId>, calls: seq<DbCall>, c: Cache) {
    && (forall k: nat, i: nat, t: DbType :: Opener(broken, calls, k, |calls|, i, t) ==>
                                              (i, t) in c && c[(i, t)] == DbOf(calls[k].a, t))
    && (forall i: nat, t: DbType :: (i, t) in c ==> exists k: nat :: Opener(broken, calls, k, |calls|, i, t))
  }

  lemma OpenerBefore(broken: set<DbId>, p: seq<DbCall>, x: DbCall, k: nat, i: nat, t: DbType)
    requires k < |p|
    ensures Opener(broken, p + [x], k, |p| + 1, i, t) <==> x.Ask? && Opener(broken, p, k, |p|, i, t)
    ensures Opener(broken, p + [x], k, |p|, i, t) <==> Opener(broken, p, k, |p|, i, t)
  {
    var q := p + [x];
    assert forall j :: 0 <= j < |p| ==> q[j] == p[j];
    assert q[|p|] == x;
    assert NoClose(q, k, |p|) <==> NoClose(p, k, |p|);
    assert NoClose(q, k, |p| + 1) <==> NoClose(q, k, |p|) && x.Ask?;
  }

  lemma {:induction false} RemembersAll(broken: set<DbId>, calls: seq<DbCall>)
    requires AllHome(broken, map[], calls)
    ensures Remembers(broken, calls, CacheFrom(broken, map[], calls))
    decreases |calls|
  {
    if calls != [] {
      var p, x := calls[..|calls| - 1], calls[|calls| - 1];
      assert calls == p + [x];
      HomeLast(broken, map[], p, x);
      RemembersAll(broken, p);
      RemembersNext(broken, p, x, CacheFrom(broken, map[], p));
    }
  }

  lemma RemembersNext(broken: set<DbId>, p: seq<DbCall>, x: DbCall, c: Cache)
    requires Remembers(broken, p, c) && Home(broken, c, x)
    ensures Remembers(broken, p + [x], CacheAfter(broken, c, x))
  {
    var q, d := p + [x], CacheAfter(broken, c, x);
    forall k: nat, i: nat, t: DbType | Opener(broken, q, k, |q|, i, t)
      ensures (i, t) in d && d[(i, t)] == DbOf(q[k].a, t)
    {
      if k < |p| {
        OpenerBefore(broken, p, x, k, i, t);
      }
    }
    forall i: nat, t: DbType | (i, t) in d ensures exists k: nat :: Opener(broken, q, k, |q|, i, t) {
      if (i, t) in c && x.Ask? {
        var k: nat :| Opener(broken, p, k, |p|, i, t);
        OpenerBefore(broken, p, x, k, i, t);
        assert Opener(broken, q, k, |q|, i, t);
      } else {
        assert Opener(broken, q, |p|, |q|, i, t);
      }
    }
  }

  /** The next call leads home if and only if no opener of its cell came from another place. */
  lemma NextHome(broken: set<DbId>, p: seq<DbCall>, x: DbCall, c: Cache)
    requires Remembers(broken, p, c)
    ensures Home(broken, c, x) <==> FitsIn(broken, p + [x], |p|)
  {
    var q := p + [x];
    if x.Ask? {
      var i, t := Index(x.a), x.t;
      forall k: nat | k < |p| ensures Opener(broken, q, k, |p|, i, t) <==> Opener(broken, p, k, |p|, i, t) {
        OpenerBefore(broken, p, x, k, i, t);
      }
      if (i, t) in c {
        var k: nat :| Opener(broken, p, k, |p|, i, t);
        assert Opener(broken, q, k, |p|, i, t);
        assert c[(i, t)] == DbOf(p[k].a, t) && q[k] == p[k];
      }
    }
  }

  lemma FitsPrefix(broken: set<DbId>, p: seq<DbCall>, x: DbCall)
    ensures Compatible(broken, p + [x]) <==> Compatible(broken, p) && FitsIn(broken, p + [x], |p|)
  {
    var q := p + [x];
    forall n: nat | n < |p| ensures FitsIn(broken, q, n) <==> FitsIn(broken, p, n) {
      assert q[n] == p[n];
      forall k: nat, i: nat, t: DbType | k < n
        ensures Opener(broken, q, k, n, i, t) <==> Opener(broken, p, k, n, i, t)
      {
        assert forall j :: 0 <= j < |p| ==> q[j] == p[j];
        assert NoClose(q, k, n) <==> NoClose(p, k, n);
      }
    }
  }

  /**
   For every run of database_get and close-all calls from an empty cache: every call leads to its own database or to
   none, if and only if, between two closes, no call uses a cell that a call from another place has opened.
   */
  lemma {:induction false} HomeExactly(broken: set<DbId>, calls: seq<DbCall>)
    ensures AllHome(broken, map[], calls) <==> Compatible(broken, calls)
    decreases |calls|
  {
    if calls != [] {
      var p, x := calls[..|calls| - 1], calls[|calls| - 1];
      assert calls == p + [x];
      HomeExactly(broken, p);
      HomeLast(broken, map[], p, x);
      FitsPrefix(broken, p, x);
      if AllHome(broken, map[], p) {
        RemembersAll(broken, p);
        NextHome(broken, p, x, CacheFrom(broken, map[], p));
      }
    }
  }

  /** A run is home if no two of its contexts are confused, whatever opens and whenever it closes. */
  lemma ApartHome(broken: set<DbId>, calls: seq<DbCall>)
    requires forall i, j :: 0 <= i < |calls| && 0 <= j < |calls| && calls[i].Ask? && calls[j].Ask? ==>
                              !Confused(calls[i].a, calls[j].a)
    ensures AllHome(broken, map[], calls)
  {
    HomeExactly(broken, calls);
  }
}
