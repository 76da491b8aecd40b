/** src/persistence_client_library_db_access.c with its two arrays, over the database plugin. */
module DbAccess {
  import opened Options
  import opened DbCache
  import opened DbLookup

  lemma {:induction false} Bounded(s: set<int>) returns (b: nat)
    ensures forall x :: x in s ==> x < b
    decreases |s|
  {
    b := 0;
    if x :| x in s {
      b := Bounded(s - {x});
      assert forall y :: y in s ==> y == x || y in s - {x};
      if b <= x {
        b := x + 1;
      }
    }
  }

  /** The key-value plugin: a table per path, and handles that may be given out again once they are closed. */
  class Plugin {
    var dbs: map<DbId, Table>
    var bound: map<int, DbId>
    const broken: set<DbId>  // paths that cannot be opened

    constructor (dbs: map<DbId, Table>, broken: set<DbId>)
      ensures this.dbs == dbs && this.broken == broken && bound == map[]
    {
      this.dbs, this.broken, bound := dbs, broken, map[];
    }

    method Open(id: DbId) returns (h: int)
      modifies this
      ensures dbs == old(dbs)
      ensures id in broken ==> h == -1 && bound == old(bound)
      ensures id !in broken ==> h >= 0 && h !in old(bound) && bound == old(bound)[h := id]
    {
      if id in broken {
        return -1;
      }
      ghost var b := Bounded(bound.Keys);
      assert b >= 0 && b !in bound;
      h :| h >= 0 && h !in bound;
      bound := bound[h := id];
    }

    method Close(h: int)
      modifies this
      ensures dbs == old(dbs) && bound == old(bound) - {h}
    {
      bound := bound - {h};
    }

    method ReadKey(h: int, key: string) returns (r: Option<Bytes>)
      requires h in bound
      ensures r == Lookup(dbs, bound[h], key)
    {
      r := Lookup(dbs, bound[h], key);
    }

    method KeySize(h: int, key: string) returns (r: Option<nat>)
      requires h in bound
      ensures r == LookupSize(dbs, bound[h], key)
    {
      r := LookupSize(dbs, bound[h], key);
    }

    method WriteKey(h: int, key: string, data: Bytes)
      requires h in bound
      modifies this
      ensures bound == old(bound) && dbs == Put(old(dbs), bound[h], key, data)
    {
      dbs := Put(dbs, bound[h], key, data);
    }

    method DeleteKey(h: int, key: string) returns (found: bool)
      requires h in bound
      modifies this
      ensures found == (key in TableOf(old(dbs), old(bound[h])))
      ensures bound == old(bound) && dbs == Drop(old(dbs), bound[h], key)
    {
      found := key in TableOf(dbs, bound[h]);
      dbs := Drop(dbs, bound[h], key);
    }
  }

  /** What a caller makes of an answer and its buffer. */
  function Outcome(readSize: int, buffer: Bytes): Found {
    if readSize >= 0 then Value(buffer) else if readSize == EPERS_NOKEY then NoKey else Unavailable
  }

  /** What pers_get_defaults is asked for. */
  datatype Job = DataJob | SizeJob

  class DbStore {
    const plugin: Plugin
    const gHandlesDB: array2<int>
    const gHandlesDBCreated: array2<bool>
    ghost var cache: map<(nat, DbType), DbId>
    ghost var owner: map<int, (nat, DbType)>  // the cell that holds an open handle

    ghost predicate Cell(i: nat, t: DbType)
      requires i < DB_TABLE_SIZE && Sizes()
      reads this, plugin, gHandlesDB, gHandlesDBCreated
    {
      var h := gHandlesDB[i, t];
      && (gHandlesDBCreated[i, t] <==> (i, t) in cache)
      && (gHandlesDBCreated[i, t] ==>
            h >= 0 && h in plugin.bound && plugin.bound[h] == cache[(i, t)] && h in owner && owner[h] == (i, t))
    }

    ghost predicate Sizes() {
      && gHandlesDB.Length0 == gHandlesDBCreated.Length0 == DB_TABLE_SIZE
      && gHandlesDB.Length1 == gHandlesDBCreated.Length1 == DB_LAST_ENTRY
    }

    ghost predicate Cells()
      requires Sizes()
      reads this, plugin, gHandlesDB, gHandlesDBCreated
    {
      forall i: nat, t: DbType :: i < DB_TABLE_SIZE ==> Cell(i, t)
    }

    /** Every handle the plugin has open sits in the cell that remembers it. */
    ghost predicate Owned()
      requires Sizes()
      reads this, plugin, gHandlesDB, gHandlesDBCreated
    {
      && owner.Keys == plugin.bound.Keys
      && forall h :: h in owner ==>
           && owner[h].0 < DB_TABLE_SIZE
           && gHandlesDBCreated[owner[h].0, owner[h].1] && gHandlesDB[owner[h].0, owner[h].1] == h
    }

    ghost predicate Valid()
      reads this, plugin, gHandlesDB, gHandlesDBCreated
    {
      && Sizes() && Owned()
      && Cells()
      && (forall c :: c in cache ==> c.0 < DB_TABLE_SIZE)
    }

    ghost function State(): World
      reads this, plugin
    {
      World(plugin.dbs, plugin.broken, cache)
    }

    constructor (p: Plugin)
      requires p.bound == map[]
      ensures Valid() && plugin == p && State() == World(p.dbs, p.broken, map[])
      ensures fresh(gHandlesDB) && fresh(gHandlesDBCreated)
    {
      plugin := p;
      gHandlesDB := new int[DB_TABLE_SIZE, DB_LAST_ENTRY]((i, j) => 0);
      gHandlesDBCreated := new bool[DB_TABLE_SIZE, DB_LAST_ENTRY]((i, j) => false);
      cache, owner := map[], map[];
    }

    /** database_get */
    method DatabaseGet(a: Access, dbType: DbType) returns (handleDB: int)
      requires Valid()
      modifies this, plugin, gHandlesDB, gHandlesDBCreated
      ensures Valid() && State() == Touch(old(State()), a, dbType)
      ensures handleDB >= 0 <==> Pick(old(State()), a, dbType).Some?
      ensures handleDB >= 0 ==>
                handleDB in plugin.bound && Some(plugin.bound[handleDB]) == Pick(old(State()), a, dbType)
    {
      handleDB := -1;
      var arrayIdx := Index(a);
      if arrayIdx < DB_TABLE_SIZE {
        assert Cell(arrayIdx, dbType);
        if !gHandlesDBCreated[arrayIdx, dbType] {
          handleDB := plugin.Open(DbOf(a, dbType));
          if handleDB >= 0 {
            gHandlesDB[arrayIdx, dbType] := handleDB;
            gHandlesDBCreated[arrayIdx, dbType] := true;
            cache := cache[(arrayIdx, dbType) := DbOf(a, dbType)];
            owner := owner[handleDB := (arrayIdx, dbType)];
            forall i: nat, t: DbType | i < DB_TABLE_SIZE ensures Cell(i, t) {
              assert old(Cell(i, t));
            }
          } else {
            forall i: nat, t: DbType | i < DB_TABLE_SIZE ensures Cell(i, t) {
              assert old(Cell(i, t));
            }
          }
        } else {
          handleDB := gHandlesDB[arrayIdx, dbType];
          assert cache[(arrayIdx, dbType) := cache[(arrayIdx, dbType)]] == cache;
        }
      }
    }

    /** The switch on the job in pers_get_defaults; None is the plugin's answer for an unknown key. */
    method Ask(handleDB: int, key: string, job: Job) returns (size: Option<nat>, buffer: Bytes)
      requires handleDB in plugin.bound
      ensures size == LookupSize(plugin.dbs, plugin.bound[handleDB], key)
      ensures job.DataJob? && size.Some? ==> Some(buffer) == Lookup(plugin.dbs, plugin.bound[handleDB], key)
    {
      size, buffer := None, [];
      if job.DataJob? {
        var value := plugin.ReadKey(handleDB, key);
        if value.Some? {
          size, buffer := Some(|value.value|), value.value;
        }
      } else {
        size := plugin.KeySize(handleDB, key);
      }
    }

    /** pers_get_defaults: the size found or EPERS_NOKEY, and for the data job the value in the buffer. */
    method GetDefaults(a: Access, job: Job) returns (readSize: int, buffer: Bytes)
      requires Valid()
      modifies this, plugin, gHandlesDB, gHandlesDBCreated
      ensures Valid() && State() == Defaults(old(State()), a, DB_CONFDEFAULT).0
      ensures readSize == DefaultSize(old(State()), a, DB_CONFDEFAULT).1
      ensures readSize == SizeOf(Defaults(old(State()), a, DB_CONFDEFAULT).1)
      ensures job.DataJob? ==> Outcome(readSize, buffer) == Defaults(old(State()), a, DB_CONFDEFAULT).1
    {
      DefaultSizeAgrees(State(), a, DB_CONFDEFAULT);
      readSize, buffer := EPERS_NOKEY, [];
      var i := DB_CONFDEFAULT;
      while i < DB_LAST_ENTRY
        invariant Valid() && DB_CONFDEFAULT <= i <= DB_LAST_ENTRY && readSize == EPERS_NOKEY
        invariant Defaults(State(), a, i) == Defaults(old(State()), a, DB_CONFDEFAULT)
      {
        var handleDefaultDB := DatabaseGet(a, i);
        if handleDefaultDB >= 0 {
          var size;
          size, buffer := Ask(handleDefaultDB, a.resource, job);
          if size.Some? {
            return size.value, buffer;
          }
        }
        i := i + 1;
      }
    }

    /** persistence_get_data: the size read or a negative answer, and the value in the buffer. */
    method GetData(a: Access) returns (readSize: int, buffer: Bytes)
      requires Valid()
      modifies this, plugin, gHandlesDB, gHandlesDBCreated
      ensures Valid() && (State(), Outcome(readSize, buffer)) == Get(old(State()), a)
      ensures readSize == SizeOf(Get(old(State()), a).1)
    {
      readSize, buffer := -1, [];
      var handleDB := DatabaseGet(a, a.policy);
      if handleDB >= 0 {
        var value := plugin.ReadKey(handleDB, a.key);
        if value.Some? {
          readSize, buffer := |value.value|, value.value;
        } else {
          readSize, buffer := GetDefaults(a, DataJob);
        }
      }
    }

    /** persistence_get_data_size: its own calls of the plugin, and the agreement with the read. */
    method GetDataSize(a: Access) returns (readSize: int)
      requires Valid()
      modifies this, plugin, gHandlesDB, gHandlesDBCreated
      ensures Valid() && (State(), readSize) == GetSize(old(State()), a)
      ensures State() == Get(old(State()), a).0 && readSize == SizeOf(Get(old(State()), a).1)
    {
      SizeAgrees(State(), a);
      DefaultSizeAgrees(Touch(State(), a, a.policy), a, DB_CONFDEFAULT);
      readSize := -1;
      var handleDB := DatabaseGet(a, a.policy);
      if handleDB >= 0 {
        var size := plugin.KeySize(handleDB, a.key);
        if size.Some? {
          readSize := size.value;
        } else {
          var unused;
          readSize, unused := GetDefaults(a, SizeJob);
        }
      }
    }

    /** persistence_set_data */
    method SetData(a: Access, data: Bytes, notified: bool) returns (size: int)
      requires Valid()
      modifies this, plugin, gHandlesDB, gHandlesDBCreated
      ensures Valid() && (State(), size) == Set(old(State()), a, data, notified)
    {
      var dbType, dbInput := a.policy, a.key;
      if a.user == PCL_USER_DEFAULTDATA {
        dbType, dbInput := DB_CONFDEFAULT, a.resource;
      }
      var handleDB := DatabaseGet(a, dbType);
      if handleDB >= 0 {
        label write:
        plugin.WriteKey(handleDB, dbInput, data);
        forall i: nat, t: DbType | i < DB_TABLE_SIZE ensures Cell(i, t) {
          assert old@write(Cell(i, t));
        }
        size := |data|;
        if a.storage == Shared {
          if !notified {
            size := EPERS_NOTIFY_SIG;
          }
        }
      } else {
        size := EPERS_NOPRCTABLE;
      }
    }

    /** persistence_delete_data */
    method DeleteData(a: Access) returns (ret: int)
      requires Valid()
      modifies this, plugin, gHandlesDB, gHandlesDBCreated
      ensures Valid() && (State(), ret) == Delete(old(State()), a)
    {
      var handleDB := DatabaseGet(a, a.policy);
      if handleDB >= 0 {
        label delete:
        var found := plugin.DeleteKey(handleDB, a.key);
        forall i: nat, t: DbType | i < DB_TABLE_SIZE ensures Cell(i, t) {
          assert old@delete(Cell(i, t));
        }
        ret := if found then 0 else EPERS_NOKEY;
      } else {
        ret := EPERS_NOPRCTABLE;
      }
    }

    /** An open handle has its entry in the cache. */
    lemma NothingLost()
      requires Valid()
      ensures cache.Keys == {} ==> plugin.bound == map[]
    {
      forall h | h in plugin.bound.Keys ensures (owner[h].0, owner[h].1) in cache.Keys {
        assert h in owner.Keys;
        assert Cell(owner[h].0, owner[h].1);
      }
      if cache.Keys == {} {
        assert forall h :: h !in plugin.bound.Keys;
        assert plugin.bound.Keys == {};
      }
    }

    /** database_close_all: every open handle is closed, and none is left open. */
    method CloseAllDatabases()
      requires Valid()
      modifies this, plugin, gHandlesDB, gHandlesDBCreated
      ensures Valid() && State() == old(State()).(cache := map[]) && plugin.bound == map[]
    {
      var i := 0;
      while i < DB_TABLE_SIZE
        invariant 0 <= i <= DB_TABLE_SIZE && Valid() && plugin.dbs == old(plugin.dbs)
        invariant forall c :: c in cache ==> c.0 >= i
      {
        var j := 0;
        while j < DB_LAST_ENTRY
          invariant 0 <= j <= DB_LAST_ENTRY && Valid() && plugin.dbs == old(plugin.dbs)
          invariant forall c :: c in cache ==> c.0 > i || (c.0 == i && c.1 >= j)
        {
          assert Cell(i, j);
          if gHandlesDBCreated[i, j] {
            CloseCell(i, j);
          }
          j := j + 1;
        }
        i := i + 1;
      }
      NothingLost();
    }

    method CloseCell(i: nat, j: DbType)
      requires Valid() && i < DB_TABLE_SIZE && gHandlesDBCreated[i, j]
      modifies this, plugin, gHandlesDBCreated
      ensures Valid() && plugin.dbs == old(plugin.dbs) && cache == old(cache) - {(i, j)}
    {
      assert Cell(i, j);
      var h := gHandlesDB[i, j];
      plugin.Close(h);
      gHandlesDBCreated[i, j] := false;
      cache, owner := cache - {(i, j)}, owner - {h};
      forall m: nat, t: DbType | m < DB_TABLE_SIZE ensures Cell(m, t) {
        assert old(Cell(m, t));
      }
    }
  }
}
