/**
 src/persistence_client_library_db_access.c on values: reads through three layers of databases, with and without the
 cache of database handles.
 */
module DbLookup {
  import opened Options
  import opened DbCache

  type Bytes = seq<bv8>
  type Table = map<string, Bytes>

  const PCL_USER_DEFAULTDATA := 0xFFFF_FFFF
  const EPERS_NOPRCTABLE := -6
  const EPERS_NOKEY := -7
  const EPERS_NOTIFY_SIG := -31

  // ---------- with the handle cache ----------

  datatype World = World(dbs: map<DbId, Table>, broken: set<DbId>, cache: Cache)

  function TableOf(dbs: map<DbId, Table>, id: DbId): Table {
    if id in dbs then dbs[id] else map[]
  }

  function Lookup(dbs: map<DbId, Table>, id: DbId, key: string): Option<Bytes> {
    if key in TableOf(dbs, id) then Some(TableOf(dbs, id)[key]) else None
  }

  /** database_get */
  function Pick(w: World, a: Access, t: DbType): Option<DbId> {
    PickFrom(w.broken, w.cache, a, t)
  }

  function Touch(w: World, a: Access, t: DbType): World {
    w.(cache := TouchIn(w.broken, w.cache, a, t))
  }

  /** The outcome of a read: -1, EPERS_NOKEY or a value. */
  datatype Found = Unavailable | NoKey | Value(data: Bytes)

  /** pers_get_defaults from layer t on */
  function Defaults(w: World, a: Access, t: int): (World, Found)
    requires DB_CONFDEFAULT <= t <= DB_LAST_ENTRY
    decreases DB_LAST_ENTRY - t
  {
    if t == DB_LAST_ENTRY then (w, NoKey)
    else
      var id := Pick(w, a, t);
      var w1 := Touch(w, a, t);
      if id.Some? && Lookup(w.dbs, id.value, a.resource).Some?
          then (w1, Value(Lookup(w.dbs, id.value, a.resource).value))
      else Defaults(w1, a, t + 1)
  }

  /** persistence_get_data */
  function Get(w: World, a: Access): (World, Found) {
    var id := Pick(w, a, a.policy);
    var w1 := Touch(w, a, a.policy);
    if id.None? then (w, Unavailable)
    else if Lookup(w.dbs, id.value, a.key).Some? then (w1, Value(Lookup(w.dbs, id.value, a.key).value))
    else Defaults(w1, a, DB_CONFDEFAULT)
  }

  function SizeOf(f: Found): int {
    match f
    case Unavailable => -1
    case NoKey => EPERS_NOKEY
    case Value(data) => |data|
  }

  function LookupSize(dbs: map<DbId, Table>, id: DbId, key: string): Option<nat> {
    if key in TableOf(dbs, id) then Some(|TableOf(dbs, id)[key]|) else None
  }

  /** pers_get_defaults asked for a size, from layer t on */
  function DefaultSize(w: World, a: Access, t: int): (World, int)
    requires DB_CONFDEFAULT <= t <= DB_LAST_ENTRY
    decreases DB_LAST_ENTRY - t
  {
    if t == DB_LAST_ENTRY then (w, EPERS_NOKEY)
    else
      var id := Pick(w, a, t);
      var w1 := Touch(w, a, t);
      if id.Some? && LookupSize(w.dbs, id.value, a.resource).Some? then
        (w1, LookupSize(w.dbs, id.value, a.resource).value)
      else DefaultSize(w1, a, t + 1)
  }

  /** persistence_get_data_size */
  function GetSize(w: World, a: Access): (World, int) {
    var id := Pick(w, a, a.policy);
    var w1 := Touch(w, a, a.policy);
    if id.None? then (w, -1)
    else if LookupSize(w.dbs, id.value, a.key).Some? then (w1, LookupSize(w.dbs, id.value, a.key).value)
    else DefaultSize(w1, a, DB_CONFDEFAULT)
  }

  lemma {:induction false} DefaultSizeAgrees(w: World, a: Access, t: int)
    requires DB_CONFDEFAULT <= t <= DB_LAST_ENTRY
    ensures DefaultSize(w, a, t) == (Defaults(w, a, t).0, SizeOf(Defaults(w, a, t).1))
    decreases DB_LAST_ENTRY - t
  {
    if t < DB_LAST_ENTRY {
      DefaultSizeAgrees(Touch(w, a, t), a, t + 1);
    }
  }

  /** The size call's own way through the layers ends at the same value, or the same error, as the read. */
  lemma SizeAgrees(w: World, a: Access)
    ensures GetSize(w, a) == (Get(w, a).0, SizeOf(Get(w, a).1))
  {
    DefaultSizeAgrees(Touch(w, a, a.policy), a, DB_CONFDEFAULT);
  }

  function WriteType(a: Access): DbType {
    if a.user == PCL_USER_DEFAULTDATA then DB_CONFDEFAULT else a.policy
  }

  function WriteKey(a: Access): string {
    if a.user == PCL_USER_DEFAULTDATA then a.resource else a.key
  }

  function Put(dbs: map<DbId, Table>, id: DbId, key: string, data: Bytes): map<DbId, Table> {
    dbs[id := TableOf(dbs, id)[key := data]]
  }

  function Drop(dbs: map<DbId, Table>, id: DbId, key: string): map<DbId, Table> {
    dbs[id := TableOf(dbs, id) - {key}]
  }

  /** persistence_set_data; `notified` is whether the change signal went out. */
  function Set(w: World, a: Access, data: Bytes, notified: bool): (World, int) {
    var id := Pick(w, a, WriteType(a));
    if id.None? then (w, EPERS_NOPRCTABLE)
    else
      (Touch(w, a, WriteType(a)).(dbs := Put(w.dbs, id.value, WriteKey(a), data)),
       if a.storage == Shared && !notified then EPERS_NOTIFY_SIG else |data|)
  }

  /** persistence_delete_data */
  function Delete(w: World, a: Access): (World, int) {
    var id := Pick(w, a, a.policy);
    if id.None? then (w, EPERS_NOPRCTABLE)
    else
      (Touch(w, a, a.policy).(dbs := Drop(w.dbs, id.value, a.key)),
       if a.key in TableOf(w.dbs, id.value) then 0 else EPERS_NOKEY)
  }

  // ---------- without it ----------

  /** The handle cache has a row for the sum of storage class and ldbid, and the database can be opened. */
  predicate Serves(broken: set<DbId>, a: Access, id: DbId) {
    (a.ldbid + if a.storage == Shared then 1 else 0) % 0x1_0000_0000 < 1024 && id !in broken
  }

  function Layer(dbs: map<DbId, Table>, broken: set<DbId>, a: Access, t: DbType, key: string): Option<Bytes> {
    var id := DbId(PlaceOf(a.ldbid), t);
    if Serves(broken, a, id) then Lookup(dbs, id, key) else None
  }

  /** What a read promises: the policy's database, then the configurable default, then the factory default. */
  function Layered(dbs: map<DbId, Table>, broken: set<DbId>, a: Access): Found {
    var own := Layer(dbs, broken, a, a.policy, a.key);
    var conf := Layer(dbs, broken, a, DB_CONFDEFAULT, a.resource);
    var factory := Layer(dbs, broken, a, DB_DEFAULT, a.resource);
    if !Serves(broken, a, DbId(PlaceOf(a.ldbid), a.policy)) then Unavailable
    else if own.Some? then Value(own.value)
    else if conf.Some? then Value(conf.value)
    else if factory.Some? then Value(factory.value)
    else NoKey
  }

  // ---------- the cache does not show ----------

  /** Every open handle leads to a database that could be opened. */
  ghost predicate Sound(w: World) {
    forall c :: c in w.cache ==> w.cache[c] !in w.broken
  }

  /** The calls of database_get that a read makes from default layer t on. */
  function DefaultCalls(w: World, a: Access, t: int): seq<DbCall>
    requires DB_CONFDEFAULT <= t <= DB_LAST_ENTRY
    decreases DB_LAST_ENTRY - t
  {
    if t == DB_LAST_ENTRY then []
    else
      var id := Pick(w, a, t);
      [Ask(a, t)]
      + if id.Some? && Lookup(w.dbs, id.value, a.resource).Some? then []
        else DefaultCalls(Touch(w, a, t), a, t + 1)
  }

  function ReadCalls(w: World, a: Access): seq<DbCall> {
    var id := Pick(w, a, a.policy);
    [Ask(a, a.policy)]
    + if id.None? || Lookup(w.dbs, id.value, a.key).Some? then []
      else DefaultCalls(Touch(w, a, a.policy), a, DB_CONFDEFAULT)
  }

  /** All its calls lead to their own databases or to none. */
  predicate HomeRead(w: World, a: Access) {
    AllHome(w.broken, w.cache, ReadCalls(w, a))
  }

  lemma PickDirect(w: World, a: Access, t: DbType)
    requires Sound(w) && Home(w.broken, w.cache, Ask(a, t))
    ensures Pick(w, a, t) == if Reachable(w.broken, a, t) then Some(DbOf(a, t)) else None
    ensures Sound(Touch(w, a, t))
  {
  }

  function LayeredDefault(dbs: map<DbId, Table>, broken: set<DbId>, a: Access, t: int): Found
    requires DB_CONFDEFAULT <= t <= DB_LAST_ENTRY
    decreases DB_LAST_ENTRY - t
  {
    if t == DB_LAST_ENTRY then NoKey
    else
      var found := Layer(dbs, broken, a, t, a.resource);
      if found.Some? then Value(found.value) else LayeredDefault(dbs, broken, a, t + 1)
  }

  lemma {:induction false} DefaultsLayered(w: World, a: Access, t: int)
    requires DB_CONFDEFAULT <= t <= DB_LAST_ENTRY && Sound(w)
    ensures var (r, f) := Defaults(w, a, t);
      && r == w.(cache := CacheFrom(w.broken, w.cache, DefaultCalls(w, a, t)))
      && (AllHome(w.broken, w.cache, DefaultCalls(w, a, t)) ==> f == LayeredDefault(w.dbs, w.broken, a, t) && Sound(r))
    decreases DB_LAST_ENTRY - t
  {
    if t < DB_LAST_ENTRY {
      var calls, w1 := DefaultCalls(w, a, t), Touch(w, a, t);
      assert calls[0] == Ask(a, t);
      if Home(w.broken, w.cache, Ask(a, t)) {
        PickDirect(w, a, t);
      }
      var id := Pick(w, a, t);
      if id.Some? && Lookup(w.dbs, id.value, a.resource).Some? {
        assert calls[1..] == [];
      } else {
        assert calls[1..] == DefaultCalls(w1, a, t + 1);
        SoundTouch(w, a, t);
        DefaultsLayered(w1, a, t + 1);
      }
    }
  }

  lemma SoundTouch(w: World, a: Access, t: DbType)
    requires Sound(w)
    ensures Sound(Touch(w, a, t))
  {
  }

  /** A read only adds to the cache; if its calls lead home, it finds what the three layers promise. */
  lemma GetIsLayered(w: World, a: Access)
    requires Sound(w)
    ensures var (r, f) := Get(w, a);
      && r == w.(cache := CacheFrom(w.broken, w.cache, ReadCalls(w, a))) && Sound(r)
      && (HomeRead(w, a) ==> f == Layered(w.dbs, w.broken, a))
  {
    var calls, w1, id := ReadCalls(w, a), Touch(w, a, a.policy), Pick(w, a, a.policy);
    assert calls[0] == Ask(a, a.policy);
    if Home(w.broken, w.cache, Ask(a, a.policy)) {
      PickDirect(w, a, a.policy);
    }
    SoundTouch(w, a, a.policy);
    if id.None? || Lookup(w.dbs, id.value, a.key).Some? {
      assert calls[1..] == [];
    } else {
      assert calls[1..] == DefaultCalls(w1, a, DB_CONFDEFAULT);
      DefaultsLayered(w1, a, DB_CONFDEFAULT);
      LayeredTwo(w.dbs, w.broken, a);
    }
  }

  lemma LayeredTwo(dbs: map<DbId, Table>, broken: set<DbId>, a: Access)
    ensures LayeredDefault(dbs, broken, a, DB_CONFDEFAULT) ==
              var conf := Layer(dbs, broken, a, DB_CONFDEFAULT, a.resource);
              var factory := Layer(dbs, broken, a, DB_DEFAULT, a.resource);
              if conf.Some? then Value(conf.value) else if factory.Some? then Value(factory.value) else NoKey
  {
    assert LayeredDefault(dbs, broken, a, DB_LAST_ENTRY) == NoKey;
  }

  // ---------- whole runs ----------

  datatype Op =
    | OpGet(a: Access)
    | OpSize(a: Access)
    | OpSet(a: Access, data: Bytes, notified: bool)
    | OpDelete(a: Access)
    | CloseAll

  function Step(w: World, op: Op): World {
    match op
    case OpGet(a) => Get(w, a).0
    case OpSize(a) => GetSize(w, a).0
    case OpSet(a, data, notified) => Set(w, a, data, notified).0
    case OpDelete(a) => Delete(w, a).0
    case CloseAll => w.(cache := map[])
  }

  function Run(w: World, ops: seq<Op>): World
    decreases |ops|
  {
    if ops == [] then w else Step(Run(w, ops[..|ops| - 1]), ops[|ops| - 1])
  }

  /** The calls of database_get that one operation makes; the size call makes those of the read. */
  function Calls(w: World, op: Op): seq<DbCall> {
    match op
    case OpGet(a) => ReadCalls(w, a)
    case OpSize(a) => ReadCalls(w, a)
    case OpSet(a, _, _) => [Ask(a, WriteType(a))]
    case OpDelete(a) => [Ask(a, a.policy)]
    case CloseAll => [Close]
  }

  function Trace(w: World, ops: seq<Op>): seq<DbCall>
    decreases |ops|
  {
    if ops == [] then []
    else Trace(w, ops[..|ops| - 1]) + Calls(Run(w, ops[..|ops| - 1]), ops[|ops| - 1])
  }

  /** Every operation of the run reaches its own databases or none. */
  predicate HomeRun(w: World, ops: seq<Op>) {
    AllHome(w.broken, w.cache, Trace(w, ops))
  }

  lemma StepCalls(w: World, op: Op)
    requires Sound(w)
    ensures var r := Step(w, op);
      Sound(r) && r.broken == w.broken && r.cache == CacheFrom(w.broken, w.cache, Calls(w, op))
  {
    match op
    case OpGet(a) => GetIsLayered(w, a);
    case OpSize(a) =>
      SizeAgrees(w, a);
      GetIsLayered(w, a);
    case OpSet(a, _, _) => OneCall(w, a, WriteType(a));
    case OpDelete(a) => OneCall(w, a, a.policy);
    case CloseAll =>
      assert [Close][1..] == [];
  }

  lemma OneCall(w: World, a: Access, t: DbType)
    requires Sound(w)
    ensures Sound(Touch(w, a, t)) && Touch(w, a, t).cache == CacheFrom(w.broken, w.cache, [Ask(a, t)])
    ensures AllHome(w.broken, w.cache, [Ask(a, t)]) <==> Home(w.broken, w.cache, Ask(a, t))
  {
    SoundTouch(w, a, t);
    assert [Ask(a, t)][1..] == [];
  }

  lemma {:induction false} RunCalls(w: World, ops: seq<Op>)
    requires Sound(w)
    ensures var r := Run(w, ops);
      Sound(r) && r.broken == w.broken && r.cache == CacheFrom(w.broken, w.cache, Trace(w, ops))
    decreases |ops|
  {
    if ops != [] {
      var p, op := ops[..|ops| - 1], ops[|ops| - 1];
      RunCalls(w, p);
      StepCalls(Run(w, p), op);
      HomeConcat(w.broken, w.cache, Trace(w, p), Calls(Run(w, p), op));
    }
  }

  /** From an empty cache: a run reaches nothing but its own databases if and only if its calls are compatible. */
  lemma HomeRunExactly(w: World, ops: seq<Op>)
    requires w.cache == map[]
    ensures HomeRun(w, ops) <==> Compatible(w.broken, Trace(w, ops))
  {
    HomeExactly(w.broken, Trace(w, ops));
  }

  ghost predicate Mentioned(ops: seq<Op>, a: Access) {
    exists i :: 0 <= i < |ops| && !ops[i].CloseAll? && ops[i].a == a
  }

  lemma {:induction false} DefaultCallsOf(w: World, a: Access, t: int)
    requires DB_CONFDEFAULT <= t <= DB_LAST_ENTRY
    ensures forall x :: x in DefaultCalls(w, a, t) ==> x.Ask? && x.a == a
    decreases DB_LAST_ENTRY - t
  {
    if t < DB_LAST_ENTRY {
      DefaultCallsOf(Touch(w, a, t), a, t + 1);
    }
  }

  lemma {:induction false} TraceMentions(w: World, ops: seq<Op>)
    ensures forall x :: x in Trace(w, ops) && x.Ask? ==> Mentioned(ops, x.a)
    decreases |ops|
  {
    if ops != [] {
      var p, op := ops[..|ops| - 1], ops[|ops| - 1];
      TraceMentions(w, p);
      var v := Run(w, p);
      if op.OpGet? || op.OpSize? {
        DefaultCallsOf(Touch(v, op.a, op.a.policy), op.a, DB_CONFDEFAULT);
      }
      forall x | x in Trace(w, ops) && x.Ask? ensures Mentioned(ops, x.a) {
        if x in Trace(w, p) {
          var i :| 0 <= i < |p| && !p[i].CloseAll? && p[i].a == x.a;
          assert ops[i] == p[i];
        } else {
          assert x in Calls(v, op) && ops[|ops| - 1].a == x.a;
        }
      }
    }
  }

  /** It is enough that no two contexts of the run are confused. */
  lemma ApartRun(w: World, ops: seq<Op>)
    requires w.cache == map[]
    requires forall a, b :: Mentioned(ops, a) && Mentioned(ops, b) ==> !Confused(a, b)
    ensures HomeRun(w, ops)
  {
    TraceMentions(w, ops);
    var calls := Trace(w, ops);
    forall i, j | 0 <= i < |calls| && 0 <= j < |calls| && calls[i].Ask? && calls[j].Ask?
      ensures !Confused(calls[i].a, calls[j].a)
    {
      assert calls[i] in calls && calls[j] in calls;
    }
    ApartHome(w.broken, calls);
  }

  /** The last thing that happened to one key of one database: a new value, a removal, or nothing. */
  datatype Change = Untouched | Removed | Stored(data: Bytes)

  /** Where a write goes: for the default-data user to the configurable default, under the bare resource id. */
  predicate Target(a: Access, id: DbId, key: string) {
    if a.user == PCL_USER_DEFAULTDATA then id == DbId(PlaceOf(a.ldbid), DB_CONFDEFAULT) && key == a.resource
    else id == DbId(PlaceOf(a.ldbid), a.policy) && key == a.key
  }

  function ChangeBy(broken: set<DbId>, op: Op, id: DbId, key: string): Change {
    match op
    case OpSet(a, data, _) =>
      if Serves(broken, a, id) && Target(a, id, key) then Stored(data) else Untouched
    case OpDelete(a) =>
      if Serves(broken, a, id) && id == DbId(PlaceOf(a.ldbid), a.policy) && key == a.key then Removed else Untouched
    case _ => Untouched
  }

  function LastChange(broken: set<DbId>, ops: seq<Op>, id: DbId, key: string): Change
    decreases |ops|
  {
    if ops == [] then Untouched
    else
      var c := ChangeBy(broken, ops[|ops| - 1], id, key);
      if c != Untouched then c else LastChange(broken, ops[..|ops| - 1], id, key)
  }

  function Changed(c: Change, before: Option<Bytes>): Option<Bytes> {
    match c
    case Untouched => before
    case Removed => None
    case Stored(data) => Some(data)
  }

  lemma StepChanges(w: World, op: Op, id: DbId, key: string)
    requires Sound(w) && AllHome(w.broken, w.cache, Calls(w, op))
    ensures Lookup(Step(w, op).dbs, id, key) == Changed(ChangeBy(w.broken, op, id, key), Lookup(w.dbs, id, key))
  {
    match op
    case OpGet(a) => GetIsLayered(w, a);
    case OpSize(a) =>
      SizeAgrees(w, a);
      GetIsLayered(w, a);
    case OpSet(a, _, _) =>
      OneCall(w, a, WriteType(a));
      PickDirect(w, a, WriteType(a));
    case OpDelete(a) =>
      OneCall(w, a, a.policy);
      PickDirect(w, a, a.policy);
    case CloseAll =>
  }

  /** Whatever runs, every database holds under every key what was last stored there. */
  lemma {:induction false} RunChanges(w: World, ops: seq<Op>, id: DbId, key: string)
    requires Sound(w) && HomeRun(w, ops)
    ensures Lookup(Run(w, ops).dbs, id, key) == Changed(LastChange(w.broken, ops, id, key), Lookup(w.dbs, id, key))
    decreases |ops|
  {
    if ops != [] {
      var p, op := ops[..|ops| - 1], ops[|ops| - 1];
      HomeConcat(w.broken, w.cache, Trace(w, p), Calls(Run(w, p), op));
      RunCalls(w, p);
      RunChanges(w, p, id, key);
      StepChanges(Run(w, p), op, id, key);
    }
  }

  /**
   A read at the end of any run of reads, writes, deletes and closes: the last value stored under its key in the
   database of its policy, else the configurable default as it now stands, else the factory default, all three in the
   directory of the ldbid. The size call gives the length of that value.
   */
  lemma ReadAfterRun(w: World, ops: seq<Op>, a: Access, place: Place)
    requires Sound(w) && HomeRun(w, ops) && HomeRead(Run(w, ops), a) && Lives(a.ldbid, place)
    ensures var (f, n) := (Get(Run(w, ops), a).1, GetSize(Run(w, ops), a).1);
      var mine, conf, factory := DbId(place, a.policy), DbId(place, DB_CONFDEFAULT), DbId(place, DB_DEFAULT);
      var own, c, d := Now(w, ops, mine, a.key), Now(w, ops, conf, a.resource), Now(w, ops, factory, a.resource);
      if !Serves(w.broken, a, mine) then f == Unavailable && n == -1
      else if own.Some? then f == Value(own.value) && n == |own.value|
      else if c.Some? && Serves(w.broken, a, conf) then f == Value(c.value) && n == |c.value|
      else if d.Some? && Serves(w.broken, a, factory) then f == Value(d.value) && n == |d.value|
      else f == NoKey && n == EPERS_NOKEY
  {
    PlaceExactly(a.ldbid, place);
    SizeAgrees(Run(w, ops), a);
    RunCalls(w, ops);
    RunChanges(w, ops, DbId(place, a.policy), a.key);
    RunChanges(w, ops, DbId(place, DB_CONFDEFAULT), a.resource);
    RunChanges(w, ops, DbId(place, DB_DEFAULT), a.resource);
    GetIsLayered(Run(w, ops), a);
  }

  /** What a database holds under a key after the run. */
  function Now(w: World, ops: seq<Op>, id: DbId, key: string): Option<Bytes> {
    Changed(LastChange(w.broken, ops, id, key), Lookup(w.dbs, id, key))
  }

  /** A write answers the size of the value if it has stored it and, for shared data, the change signal went out. */
  lemma SetAnswers(w: World, a: Access, data: Bytes, notified: bool, id: DbId, key: string)
    requires Sound(w) && HomeRun(w, [OpSet(a, data, notified)]) && Target(a, id, key)
    ensures var (r, n) := Set(w, a, data, notified);
      if Serves(w.broken, a, id) then
        Lookup(r.dbs, id, key) == Some(data) && n == if notified || a.storage == Storage.Local then |data|
            else EPERS_NOTIFY_SIG
      else r == w && n == EPERS_NOPRCTABLE
  {
    OneStep(w, OpSet(a, data, notified));
    OneCall(w, a, WriteType(a));
    PickDirect(w, a, WriteType(a));
  }

  /** A delete answers 0 exactly if the key was in the database of the policy; the defaults do not matter. */
  lemma DeleteAnswers(w: World, a: Access)
    requires Sound(w) && HomeRun(w, [OpDelete(a)])
    ensures var (r, n) := Delete(w, a); var id := DbId(PlaceOf(a.ldbid), a.policy);
      if !Serves(w.broken, a, id) then r == w && n == EPERS_NOPRCTABLE
      else Lookup(r.dbs, id, a.key) == None && n == if Lookup(w.dbs, id, a.key).Some? then 0 else EPERS_NOKEY
  {
    OneStep(w, OpDelete(a));
    OneCall(w, a, a.policy);
    PickDirect(w, a, a.policy);
  }

  lemma OneStep(w: World, op: Op)
    ensures Trace(w, [op]) == Calls(w, op)
  {
    assert [op][..0] == [];
    assert Trace(w, []) == [] && Run(w, []) == w;
  }

  /** The collision at work: after a read of shared group 0x7F, local data of ldbid 0x80 is written into that group. */
  lemma CollisionLeaks(data: Bytes, key: string, resource: string)
    ensures var group := Access(Shared, 0x7F, POLICY_WC, 0, key, resource);
      var own := Access(Storage.Local, 0x80, POLICY_WC, 0, key, resource);
      var w := Run(World(map[], {}, map[]), [OpGet(group), OpSet(own, data, true)]);
      Get(w, group).1 == Value(data) && Lookup(w.dbs, DbOf(own, POLICY_WC), key) == None
  {
    var group := Access(Shared, 0x7F, POLICY_WC, 0, key, resource);
    var own := Access(Storage.Local, 0x80, POLICY_WC, 0, key, resource);
    var w0 := World(map[], {}, map[]);
    var ops := [OpGet(group), OpSet(own, data, true)];
    assert ops[..1] == [OpGet(group)] && ops[..1][..0] == [];
    var w1 := Step(w0, ops[0]);
    assert Run(w0, ops[..1]) == w1;
    GetIsLayered(w0, group);
    assert Run(w0, ops) == Step(w1, ops[1]);
  }
}
