/** src/persistence_client_library_handle.c: the file-handle table, whose records are replaced by erase and insert. */
module FileHandles {
  import opened Options
  import opened RbShape
  import opened RbTree

  datatype Permission = ReadWrite | ReadOnly | WriteOnly | LastEntry | Unset  // Unset is the -1 of set_file_user_id

  datatype FileRec = FileRec(
    permission: Permission,
    backupCreated: int,
    cacheStatus: int,
    userId: int,
    backupPath: string,
    csumPath: string,
    filePath: Option<string>)

  type Table = map<Key, FileRec>

  // ---------- what the setters mean for the table ----------

  datatype Call =
    | Data(permission: Permission, backup: string, csum: string, path: Option<string>)
    | Backup(status: int, leftover: (string, string))
    | Cache(status: int)
    | User(userId: int)

  /**
   The record after a setter call. A missing record is created with that setter's defaults; the one of the backup
   status leaves both paths as its memory was, which `leftover` stands for.
   */
  function After(before: Option<FileRec>, c: Call): FileRec {
    match c
    case Data(p, b, s, f) =>
      if before.Some? then before.value.(permission := p, backupPath := b, csumPath := s, filePath := f)
      else FileRec(p, 0, -1, 0, b, s, f)
    case Backup(st, l) =>
      if before.Some? then before.value.(backupCreated := st) else FileRec(LastEntry, st, -1, 0, l.0, l.1, None)
    case Cache(st) =>
      if before.Some? then before.value.(cacheStatus := st) else FileRec(LastEntry, 0, st, 0, "", "", None)
    case User(u) =>
      if before.Some? then before.value.(userId := u) else FileRec(Unset, 0, -1, u, "", "", None)
  }

  function At(m: Table, idx: Key): Option<FileRec> {
    if idx in m then Some(m[idx]) else None
  }

  function Apply(m: Table, idx: Key, c: Call): Table {
    m[idx := After(At(m, idx), c)]
  }

  class FileHandles {
    var gFileHandleTree: RbTree?<FileRec>

    ghost function Repr(): set<object>
      reads this, gFileHandleTree
    {
      if gFileHandleTree == null then {this} else
        var t: RbTree<FileRec> := gFileHandleTree; {this, t} + t.Nodes()
    }

    ghost predicate Valid()
      reads Repr()
    {
      gFileHandleTree != null ==> gFileHandleTree.Valid()
    }

    ghost function Contents(): Table
      reads this, gFileHandleTree
    {
      if gFileHandleTree == null then map[] else gFileHandleTree.Contents()
    }

    constructor ()
      ensures Valid() && Contents() == map[] && fresh(Repr())
    {
      gFileHandleTree := null;
    }

    /** The tree is created by the first setter. */
    method EnsureTree()
      requires Valid()
      modifies this
      ensures Valid() && gFileHandleTree != null && Contents() == old(Contents())
      ensures forall o :: o in Repr() ==> o in old(Repr()) || fresh(o)
    {
      if gFileHandleTree == null {
        gFileHandleTree := new RbTree<FileRec>();
      }
    }

    /** Insert a new record, or copy, erase and insert the changed copy. */
    method Put(idx: Key, found: bool, rec: FileRec)
      requires Valid() && gFileHandleTree != null && (found <==> idx in Contents())
      modifies Repr()
      ensures Valid() && gFileHandleTree == old(gFileHandleTree) && Contents() == old(Contents())[idx := rec]
      ensures forall o :: o in Repr() ==> o in old(Repr()) || fresh(o)
    {
      ghost var m := Contents();
      if found {
        var _ := gFileHandleTree.Erase(idx);
      }
      assert allocated(gFileHandleTree.Nodes());
      var _ := gFileHandleTree.Insert(Item(idx, rec));
      assert (m - {idx})[idx := rec] == m[idx := rec];
    }

    method Get(idx: Key) returns (r: Option<FileRec>)
      requires Valid()
      ensures r == if idx in Contents() then Some(Contents()[idx]) else None
    {
      r := None;
      if gFileHandleTree != null {
        ghost var steps;
        r, steps := gFileHandleTree.Find(idx);
      }
    }

    /** set_file_handle_data */
    method SetFileHandleData(idx: Key, permission: Permission, backup: string, csum: string, path: Option<string>)
      returns (rval: int)
      requires Valid()
      modifies Repr()
      ensures Valid() && rval == 0 && Contents() == Apply(old(Contents()), idx, Data(permission, backup, csum, path))
      ensures forall o :: o in Repr() ==> o in old(Repr()) || fresh(o)
    {
      EnsureTree();
      assert allocated(Repr());
      var found := Get(idx);
      if found.None? {
        Put(idx, false, FileRec(permission, 0, -1, 0, backup, csum, path));
      } else {
        Put(idx, true, found.value.(permission := permission, backupPath := backup, csumPath := csum,
            filePath := path));
      }
      rval := 0;
    }

    /** set_file_backup_status */
    method SetFileBackupStatus(idx: Key, status: int, leftover: (string, string))
      requires Valid()
      modifies Repr()
      ensures Valid() && Contents() == Apply(old(Contents()), idx, Backup(status, leftover))
      ensures forall o :: o in Repr() ==> o in old(Repr()) || fresh(o)
    {
      EnsureTree();
      assert allocated(Repr());
      var found := Get(idx);
      if found.None? {
        Put(idx, false, FileRec(LastEntry, status, -1, 0, leftover.0, leftover.1, None));
      } else {
        Put(idx, true, found.value.(backupCreated := status));
      }
    }

    /** set_file_cache_status */
    method SetFileCacheStatus(idx: Key, status: int)
      requires Valid()
      modifies Repr()
      ensures Valid() && Contents() == Apply(old(Contents()), idx, Cache(status))
      ensures forall o :: o in Repr() ==> o in old(Repr()) || fresh(o)
    {
      EnsureTree();
      assert allocated(Repr());
      var found := Get(idx);
      if found.None? {
        Put(idx, false, FileRec(LastEntry, 0, status, 0, "", "", None));
      } else {
        Put(idx, true, found.value.(cacheStatus := status));
      }
    }

    /** set_file_user_id */
    method SetFileUserId(idx: Key, userId: int)
      requires Valid()
      modifies Repr()
      ensures Valid() && Contents() == Apply(old(Contents()), idx, User(userId))
      ensures forall o :: o in Repr() ==> o in old(Repr()) || fresh(o)
    {
      EnsureTree();
      assert allocated(Repr());
      var found := Get(idx);
      if found.None? {
        Put(idx, false, FileRec(Unset, 0, -1, userId, "", "", None));
      } else {
        Put(idx, true, found.value.(userId := userId));
      }
    }

    /** remove_file_handle_data: 1 whether or not the record was there, -1 only before the first setter. */
    method RemoveFileHandleData(idx: Key) returns (rval: int)
      requires Valid()
      modifies Repr()
      ensures Valid() && Contents() == old(Contents()) - {idx} && Repr() <= old(Repr())
      ensures rval == if old(gFileHandleTree) == null then -1 else 1
    {
      rval := -1;
      if gFileHandleTree != null {
        rval := gFileHandleTree.Erase(idx);
      }
    }

    /** get_file_permission: Unset (-1) for an unknown handle, but LastEntry as long as there is no tree at all. */
    method GetFilePermission(idx: Key) returns (p: Permission)
      requires Valid()
      ensures p == if gFileHandleTree == null then LastEntry
                   else if idx in Contents() then Contents()[idx].permission else Unset
    {
      p := LastEntry;
      if gFileHandleTree != null {
        var found := Get(idx);
        p := if found.Some? then found.value.permission else Unset;
      }
    }
  }

  // ---------- how the setters combine ----------

  predicate SameKind(c: Call, d: Call) {
    (c.Data? && d.Data?) || (c.Backup? && d.Backup?) || (c.Cache? && d.Cache?) || (c.User? && d.User?)
  }

  lemma MapSwap<K, W>(m: map<K, W>, i: K, j: K, x: W, y: W)
    requires i != j
    ensures m[i := x][j := y] == m[j := y][i := x]
  {
  }

  /** On an existing record setters of different fields commute; on different handles all setters do. */
  lemma SettersCommute(m: Table, i: Key, c: Call, j: Key, d: Call)
    requires i != j || (i in m && !SameKind(c, d))
    ensures Apply(Apply(m, i, c), j, d) == Apply(Apply(m, j, d), i, c)
  {
    if i != j {
      MapSwap(m, i, j, After(At(m, i), c), After(At(m, j), d));
    }
  }

  /** The order of two calls on one existing record matters only if they set the same fields differently. */
  predicate AgreeOnRecord(c: Call, d: Call) {
    match c
    case Data(_, _, _, _) => d.Data? ==> c == d
    case Backup(st, _) => d.Backup? ==> st == d.status
    case Cache(st) => d.Cache? ==> c == d
    case User(u) => d.User? ==> c == d
  }

  predicate NoLeftover(c: Call) {
    c.Backup? && c.leftover == ("", "")
  }

  /**
   On a missing record the first call also creates it, with its own idea of the other fields: the data setter sets all
   of those in which the others differ, and cache and backup setter agree when the memory happens to be empty text.
   */
  predicate AgreeOnNew(c: Call, d: Call) {
    || c == d
    || (!SameKind(c, d) && (c.Data? || d.Data?))
    || (c.Cache? && NoLeftover(d)) || (d.Cache? && NoLeftover(c))
  }

  lemma AfterExactly(r: Option<FileRec>, c: Call, d: Call)
    ensures After(Some(After(r, c)), d) == After(Some(After(r, d)), c)
       <==> if r.Some? then AgreeOnRecord(c, d) else AgreeOnNew(c, d)
  {
  }

  lemma MapLast<K, W>(m: map<K, W>, i: K, x: W, y: W, z: W)
    ensures m[i := x][i := y] == m[i := y]
    ensures m[i := y] == m[i := z] <==> y == z
  {
    assert m[i := y][i] == y && m[i := z][i] == z;
  }

  /** When the order of two setters does not matter, for all tables, handles and setters. */
  lemma SettersCommuteExactly(m: Table, i: Key, c: Call, j: Key, d: Call)
    ensures Apply(Apply(m, i, c), j, d) == Apply(Apply(m, j, d), i, c)
       <==> i != j || (if i in m then AgreeOnRecord(c, d) else AgreeOnNew(c, d))
  {
    if i != j {
      SettersCommute(m, i, c, j, d);
    } else {
      var r := At(m, i);
      var x, y := After(Some(After(r, c)), d), After(Some(After(r, d)), c);
      MapLast(m, i, After(r, c), x, y);
      MapLast(m, i, After(r, d), y, x);
      AfterExactly(r, c, d);
    }
  }

  /** Two setters on a missing record, where the first chooses the permission for the second. */
  lemma FirstSetterChooses(idx: Key)
    ensures Apply(Apply(map[], idx, Cache(1)), idx, User(7))[idx].permission == LastEntry
    ensures Apply(Apply(map[], idx, User(7)), idx, Cache(1))[idx].permission == Unset
  {
  }

  /** Any number of setter calls on one handle. */
  function ApplyAll(m: Table, idx: Key, calls: seq<Call>): Table
    decreases |calls|
  {
    if calls == [] then m else ApplyAll(Apply(m, idx, calls[0]), idx, calls[1..])
  }

  function AfterAll(r: FileRec, calls: seq<Call>): FileRec
    decreases |calls|
  {
    if calls == [] then r else AfterAll(After(Some(r), calls[0]), calls[1..])
  }

  /** However many setters run on one handle, no other handle's record changes. */
  lemma {:induction false} SettersLocal(m: Table, idx: Key, calls: seq<Call>)
    requires idx in m
    ensures ApplyAll(m, idx, calls) == m[idx := AfterAll(m[idx], calls)]
    decreases |calls|
  {
    if calls != [] {
      SettersLocal(Apply(m, idx, calls[0]), idx, calls[1..]);
    }
  }

  /** A field only changes if its own setter is among the calls. */
  lemma {:induction false} FieldsLocal(r: FileRec, calls: seq<Call>)
    ensures var t := AfterAll(r, calls);
      && (t.backupCreated == r.backupCreated || exists i :: 0 <= i < |calls| && calls[i].Backup?)
      && (t.cacheStatus == r.cacheStatus || exists i :: 0 <= i < |calls| && calls[i].Cache?)
      && (t.userId == r.userId || exists i :: 0 <= i < |calls| && calls[i].User?)
      && ((t.permission == r.permission && t.backupPath == r.backupPath && t.csumPath == r.csumPath
          && t.filePath == r.filePath)
          || exists i :: 0 <= i < |calls| && calls[i].Data?)
    decreases |calls|
  {
    if calls != [] {
      FieldsLocal(After(Some(r), calls[0]), calls[1..]);
      assert forall i :: 0 <= i < |calls| - 1 ==> calls[1..][i] == calls[i + 1];
    }
  }

  /** The value that the last of the calls to set this field gives it, or the one it had. */
  function Latest<T>(calls: seq<Call>, sets: Call -> Option<T>, had: T): T
    decreases |calls|
  {
    if calls == [] then had
    else
      var c := sets(calls[|calls| - 1]);
      if c.Some? then c.value else Latest(calls[..|calls| - 1], sets, had)
  }

  lemma {:induction false} AfterLast(r: FileRec, p: seq<Call>, c: Call)
    ensures AfterAll(r, p + [c]) == After(Some(AfterAll(r, p)), c)
    decreases |p|
  {
    if p == [] {
      assert [c][1..] == [] && p + [c] == [c];
    } else {
      assert (p + [c])[1..] == p[1..] + [c];
      AfterLast(After(Some(r), p[0]), p[1..], c);
    }
  }

  /** After any calls each field holds what its own setter was last given. */
  lemma {:induction false} FieldsLatest(r: FileRec, calls: seq<Call>)
    ensures var t := AfterAll(r, calls);
      && t.permission == Latest(calls, (c: Call) => if c.Data? then Some(c.permission) else None, r.permission)
      && t.backupPath == Latest(calls, (c: Call) => if c.Data? then Some(c.backup) else None, r.backupPath)
      && t.csumPath == Latest(calls, (c: Call) => if c.Data? then Some(c.csum) else None, r.csumPath)
      && t.filePath == Latest(calls, (c: Call) => if c.Data? then Some(c.path) else None, r.filePath)
      && t.backupCreated == Latest(calls, (c: Call) => if c.Backup? then Some(c.status) else None, r.backupCreated)
      && t.cacheStatus == Latest(calls, (c: Call) => if c.Cache? then Some(c.status) else None, r.cacheStatus)
      && t.userId == Latest(calls, (c: Call) => if c.User? then Some(c.userId) else None, r.userId)
    decreases |calls|
  {
    if calls != [] {
      var p, c := calls[..|calls| - 1], calls[|calls| - 1];
      assert calls == p + [c];
      AfterLast(r, p, c);
      FieldsLatest(r, p);
    }
  }

  /** What a setter starts from if there is no record. */
  function Blank(c: Call): FileRec {
    var (backup, csum) := if c.Backup? then c.leftover else ("", "");
    FileRec(if c.User? then Unset else LastEntry, 0, -1, 0, backup, csum, None)
  }

  lemma NewRecord(c: Call)
    ensures After(None, c) == After(Some(Blank(c)), c)
  {
  }

  /** The setters pclFileOpenRegular runs for a writable file: old status of a reused descriptor does not survive. */
  lemma OpenRecord(m: Table, fd: Key, p: Permission, backup: string, csum: string, wantBackup: int, l: (string, string))
    ensures var r := Apply(Apply(m, fd, Data(p, backup, csum, None)), fd, Backup(wantBackup, l));
      && r.Keys == m.Keys + {fd}
      && r[fd].permission == p && r[fd].backupPath == backup && r[fd].csumPath == csum
          && r[fd].backupCreated == wantBackup
      && (fd in m ==> r[fd].cacheStatus == m[fd].cacheStatus && r[fd].userId == m[fd].userId)
  {
  }
}
