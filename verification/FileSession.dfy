/**
 src/persistence_client_library_file.c: open, write and close of one resource, over the descriptor table and the disk.
 The calls refine the session runs.
 */
module FileSession {
  import opened Options
  import opened Crc32
  import opened Disks
  import opened RbShape
  import opened BackupProtocol
  import opened BackupFiles
  import opened SessionRuns
  import FileHandles

  const EPERS_MAXHANDLE: Key := -4
  const EPERS_RESOURCE_READ_ONLY := -39
  const MAX_PERS_HANDLE := 512
  const PCL_USER_DEFAULTDATA := -1  // 0xFFFFFFFF as an int

  /** The descriptor table after an open. */
  function Recorded(m: FileHandles.Table, number: Key, permission: FileHandles.Permission, wantBackup: int,
                    backup: string, csum: string): FileHandles.Table
  {
    var m1 := FileHandles.Apply(m, number, FileHandles.Data(permission, backup, csum, None));
    if permission.ReadOnly? then m1 else FileHandles.Apply(m1, number, FileHandles.Backup(wantBackup, ("", "")))
  }

  /** The disk an open ends on: a missing file is created, and filled with its default data if its descriptor fits. */
  function Opening(d: Disk, fits: bool, defaults: Option<Bytes>): Disk {
    if d.orig.Some? then d else d.(orig := Some(if defaults.Some? && fits then defaults.value else []))
  }

  /** The descriptor table after an open that found or created its file. */
  function Listed(m: FileHandles.Table, handle: Key, fits: bool, created: bool, permission: FileHandles.Permission,
                  cacheStatus: int, wantBackup: int, backup: string, csum: string): FileHandles.Table
  {
    var m1 := if created && fits then FileHandles.Apply(m, handle, FileHandles.Cache(cacheStatus)) else m;
    if fits || created then Recorded(m1, handle, permission, wantBackup, backup, csum) else m
  }

  predicate ArmedIn(m: FileHandles.Table, number: Key) {
    number in m && m[number].backupCreated == 0 && m[number].userId != PCL_USER_DEFAULTDATA
  }

  /** The descriptor number still has a record of a file of the default-data user: an open keeps its user id. */
  predicate LeftByDefaultUser(m: FileHandles.Table, number: Key) {
    number in m && m[number].userId == PCL_USER_DEFAULTDATA
  }

  /** Files that are opened for writing and not on the blacklist are protected. */
  predicate Checked(permission: FileHandles.Permission, blacklisted: bool) {
    !permission.ReadOnly? && !blacklisted
  }

  function Check(d: Disk, permission: FileHandles.Permission, blacklisted: bool): (seq<Effect>, Outcome) {
    if Checked(permission, blacklisted) then VerifyAs(d, !permission.WriteOnly?) else ([], Nothing)
  }

  /** What pclFileOpenRegular is called with and finds in the system. */
  datatype Request = Request(permission: FileHandles.Permission, blacklisted: bool, number: Key, cacheStatus: int,
                             defaults: Option<Bytes>, backup: string, csum: string)

  /** Disk and descriptor table after an open, and its answer. */
  ghost predicate OpenedTo(d: Disk, m: FileHandles.Table, d2: Disk, m2: FileHandles.Table, handle: int, q: Request) {
    var (plan, outcome) := Check(d, q.permission, q.blacklisted);
    var d1, fits := ExecAll(d, plan), q.number < MAX_PERS_HANDLE;
    if outcome == Lost then
      handle == -1 && d2 == Disk(None, None, None) && m2 == m
    else
      && handle == (if fits then q.number else EPERS_MAXHANDLE)
      && d2 == Opening(d1, fits, q.defaults)
      && m2 == Listed(m, handle as Key, fits, d1.orig.None?, q.permission, q.cacheStatus,
                      if Checked(q.permission, q.blacklisted) then 0 else 1, q.backup, q.csum)
  }

  /** Only an existing original that recovery did not rewrite is open for writing only. */
  predicate OpensReadable(d: Disk, permission: FileHandles.Permission, blacklisted: bool) {
    var plan := Check(d, permission, blacklisted).0;
    !permission.WriteOnly? || plan != [] || ExecAll(d, plan).orig.None?
  }

  lemma CheckClears(d: Disk, permission: FileHandles.Permission, blacklisted: bool)
    ensures var (plan, outcome) := Check(d, permission, blacklisted);
      && (outcome == Lost ==> ExecAll(d, plan) == Disk(None, None, None))
      && (outcome == Opened ==> ExecAll(d, plan).orig.Some?)
      && (outcome == Nothing ==> plan == [])
  {
    WipeClears(d);
    if d.backup.Some? {
      RestoreCopies(d, d.backup.value);
    }
  }

  /** What the check accepts it would accept again, also after a missing file has been created. */
  lemma OpenedReady(d: Disk, m: FileHandles.Table, d2: Disk, m2: FileHandles.Table, q: Request)
    requires OpenedTo(d, m, d2, m2, q.number, q) && !q.permission.ReadOnly?
    requires q.number > 0
    ensures ArmedIn(m2, q.number) <==> !q.blacklisted && !LeftByDefaultUser(m, q.number)
    ensures q.number in m2 && m2[q.number].permission == q.permission
    ensures !q.permission.WriteOnly? && !q.blacklisted ==> Settled(d2)
  {
    if !q.permission.WriteOnly? && !q.blacklisted {
      OpenSettles(d, if q.defaults.Some? then q.defaults.value else []);
    }
  }

  /** The helper files vouch for a content that replaces the original. */
  predicate Restores(d: Disk) {
    d.backup.Some? && d.backup.value != [] && d.csum == Some(Csum(d.backup.value))
  }

  /**
   What is on the disk after an open, unless the resource is lost: the helper files as before; an original that was
   there, or the backup in its place; one that was missing with exactly the default data, if its descriptor fits.
   */
  lemma OpenedDisk(d: Disk, m: FileHandles.Table, d2: Disk, m2: FileHandles.Table, handle: int, q: Request)
    requires OpenedTo(d, m, d2, m2, handle, q) && q.number > 0
    ensures handle == -1 <==> Checked(q.permission, q.blacklisted) && VerifyAs(d, !q.permission.WriteOnly?).1 == Lost
    ensures handle == -1 ==> d2 == Disk(None, None, None)
    ensures handle != -1 ==>
              && handle == (if q.number < 512 then q.number else -4)
              && d2.backup == d.backup && d2.csum == d.csum
              && (if d.orig.Some? then
                    d2.orig == if !q.permission.ReadOnly? && !q.blacklisted && Restores(d) then d.backup else d.orig
                  else d2.orig == Some(if q.number < 512 && q.defaults.Some? then q.defaults.value else []))
  {
    RecoverAsEffect(d, !q.permission.WriteOnly?);
  }

  /** Such an open hands over a readable file if it was not for writing only, or created or restored the file. */
  lemma ReadableExactly(d: Disk, permission: FileHandles.Permission, blacklisted: bool)
    requires Check(d, permission, blacklisted).1 != Lost
    ensures OpensReadable(d, permission, blacklisted) <==>
              !permission.WriteOnly? || d.orig.None? || (!blacklisted && Restores(d))
  {
    RecoverAsEffect(d, !permission.WriteOnly?);
  }

  /** What one setter after the other leaves in the record of a descriptor, new or reused. */
  lemma ListedFields(m: FileHandles.Table, h: Key, fits: bool, created: bool, q: Request, wantBackup: int)
    requires fits || created
    ensures var m2 := Listed(m, h, fits, created, q.permission, q.cacheStatus, wantBackup, q.backup, q.csum);
      && m2.Keys == m.Keys + {h} && (forall k :: k in m && k != h ==> m2[k] == m[k])
      && var (r, known) := (m2[h], h in m);
         && r.permission == q.permission && r.backupPath == q.backup && r.csumPath == q.csum && r.filePath == None
         && r.userId == (if known then m[h].userId else 0)
         && r.backupCreated == (if !q.permission.ReadOnly? then wantBackup else if known then m[h].backupCreated else 0)
         && r.cacheStatus == (if created && fits then q.cacheStatus else if known then m[h].cacheStatus else -1)
  {
  }

  /** And in the descriptor table: one record, under the answer, with what the open was given; no other changes. */
  lemma OpenedTable(d: Disk, m: FileHandles.Table, d2: Disk, m2: FileHandles.Table, handle: int, q: Request)
    requires OpenedTo(d, m, d2, m2, handle, q) && q.number > 0
    ensures handle == -1 || (q.number >= 512 && d.orig.Some?) ==> m2 == m
    ensures handle != -1 && (q.number < 512 || d.orig.None?) ==>
              && m2.Keys == m.Keys + {handle as Key} && (forall k :: k in m && k != handle ==> m2[k] == m[k])
              && var r := m2[handle as Key]; var known := handle as Key in m;
                 && r.permission == q.permission
                 && r.backupPath == q.backup && r.csumPath == q.csum && r.filePath == None
                 && r.userId == (if known then m[handle as Key].userId else 0)
                 && r.backupCreated == (if !q.permission.ReadOnly? then if q.blacklisted then 1 else 0
                                        else if known then m[handle as Key].backupCreated else 0)
                 && r.cacheStatus == (if d.orig.None? && q.number < 512 then q.cacheStatus
                                      else if known then m[handle as Key].cacheStatus else -1)
  {
    RecoverAsEffect(d, !q.permission.WriteOnly?);
    if handle != -1 && (q.number < 512 || d.orig.None?) {
      ListedFields(m, handle as Key, q.number < 512, d.orig.None?, q,
                   if Checked(q.permission, q.blacklisted) then 0 else 1);
    }
  }

  lemma OpenSettles(d: Disk, content: Bytes)
    requires Verify(d).1 != Lost
    ensures Settled(Recover(d)) && (Recover(d).orig.None? ==> Settled(Recover(d).(orig := Some(content))))
  {
    RecoverEffect(d);
    VerifyIdempotent(d);
  }

  lemma AfterWrite(s: Session, data: Bytes, t: Session)
    requires s.disk.orig.Some? && t.pos == s.pos + |data| && !t.armed && t.readable == s.readable
    requires t.disk == ExecAll(s.disk, WriteEffects(s, data))
    ensures t == After(s, Write(data))
  {
  }

  class FileApi {
    const store: Store
    const files: FileHandles.FileHandles

    ghost function Repr(): set<object>
      reads this, files, files.gFileHandleTree
    {
      {this, store} + files.Repr()
    }

    ghost predicate Valid()
      reads this, store, files, files.gFileHandleTree, files.Repr()
    {
      store.Valid() && files.Valid() && store !in files.Repr() && this !in files.Repr()
    }

    constructor (d: Disk)
      ensures Valid() && store.disk == d && store.log == [] && files.Contents() == map[] && fresh(Repr())
    {
      store := new Store(d);
      files := new FileHandles.FileHandles();
    }

    /** The next write through this descriptor takes the backup first. */
    ghost predicate Armed(number: Key)
      requires files.Valid()
      reads files, files.gFileHandleTree, files.Repr()
    {
      ArmedIn(files.Contents(), number)
    }

    ghost function State(fd: Fd, number: Key): Session
      requires files.Valid()
      reads this, store, fd, files, files.gFileHandleTree, files.Repr()
    {
      Session(store.disk, fd.pos, Armed(number), fd.readable)
    }

    /** What get_file_permission answers. */
    ghost function Permission(number: Key): FileHandles.Permission
      requires files.Valid()
      reads files, files.gFileHandleTree, files.Repr()
    {
      if files.gFileHandleTree == null then FileHandles.LastEntry
      else if number in files.Contents() then files.Contents()[number].permission
      else FileHandles.Unset
    }

    /** The end of pclFileOpenRegular: a writable file also gets its backup status. */
    method Record(number: Key, permission: FileHandles.Permission, wantBackup: int, backup: string, csum: string)
      requires Valid()
      modifies files.Repr()
      ensures Valid() && store.disk == old(store.disk) && store.log == old(store.log)
      ensures forall o :: o in Repr() ==> o in old(Repr()) || fresh(o)
      ensures files.Contents() == Recorded(old(files.Contents()), number, permission, wantBackup, backup, csum)
    {
      assert allocated(files.Repr());
      var _ := files.SetFileHandleData(number, permission, backup, csum, None);
      assert allocated(files.Repr());
      if !permission.ReadOnly? {
        files.SetFileBackupStatus(number, wantBackup, ("", ""));
      }
    }

    /** The consistency check before the open: 0 or a descriptor, -1 when the resource is lost. */
    method CheckFirst(permission: FileHandles.Permission, blacklisted: bool) returns (handle: int, fd: Fd?)
      requires Valid()
      modifies store
      ensures Valid()
      ensures var (plan, outcome) := Check(old(store.disk), permission, blacklisted);
        && store.log == old(store.log) + plan && store.disk == ExecAll(old(store.disk), plan)
        && handle == HandleOf(outcome)
        && store.Delivers(handle, fd, !permission.WriteOnly? || plan != [])
      ensures fd != null ==> fresh(fd) && fd.pos == 0
    {
      handle, fd := 0, null;
      assert allocated(files.Repr());
      if !permission.ReadOnly? && !blacklisted {
        handle, fd := store.VerifyConsistency(!permission.WriteOnly?);
      }
    }

    /** pclFileOpenRegular of a file that is not there: it is created and filled with its default data. */
    method CreateMissing(number: Key, cacheStatus: int, defaults: Option<Bytes>) returns (handle: Key, fd: Fd)
      requires Valid()
      modifies Repr()
      ensures Valid() && fresh(fd) && fd !in Repr() && fd.file == Orig && fd.readable && fd.pos == 0
      ensures forall o :: o in Repr() ==> o in old(Repr()) || fresh(o)
      ensures handle == if number < MAX_PERS_HANDLE then number else EPERS_MAXHANDLE
      ensures store.disk == old(store.disk).(orig := Some(if defaults.Some? && number < MAX_PERS_HANDLE
          then defaults.value else []))
      ensures files.Contents() == if number < MAX_PERS_HANDLE
          then FileHandles.Apply(old(files.Contents()), number, FileHandles.Cache(cacheStatus))
                                  else old(files.Contents())
    {
      assert allocated(files.Repr());
      fd := store.Create(Orig, true);
      handle := EPERS_MAXHANDLE;
      if number < MAX_PERS_HANDLE {
        if defaults.Some? {
          var _ := store.Write(fd, defaults.value);
          fd.pos := 0;
          assert Splice([], 0, defaults.value) == defaults.value;
        }
        assert allocated(files.Repr());
        files.SetFileCacheStatus(number, cacheStatus);
        handle := number;
      }
    }

    /**
     Opens the file unless the check has done so, or creates it, always for reading too; `record` says whether the
     descriptor table is to be told.
     */
    method OpenOrCreate(checked: Fd?, readable: bool, number: Key, cacheStatus: int, defaults: Option<Bytes>)
        returns (handle: Key, fd: Fd, record: bool)
      requires Valid()
      requires checked != null ==>
                 checked !in Repr() && checked.file == Orig && checked.pos == 0 && store.disk.orig.Some?
      modifies Repr()
      ensures Valid() && (fresh(fd) || fd == checked) && fd !in Repr() && fd.file == Orig && fd.pos == 0
      ensures fd.readable == if checked != null then checked.readable else readable || old(store.disk).orig.None?
      ensures forall o :: o in Repr() ==> o in old(Repr()) || fresh(o)
      ensures handle == (if number < MAX_PERS_HANDLE then number else EPERS_MAXHANDLE)
      ensures record == (number < MAX_PERS_HANDLE || old(store.disk).orig.None?)
      ensures store.disk == if old(store.disk).orig.Some? then old(store.disk)
                            else old(store.disk).(orig := Some(if defaults.Some? && number < MAX_PERS_HANDLE
                                then defaults.value else []))
      ensures files.Contents() == if number < MAX_PERS_HANDLE && old(store.disk).orig.None?
                                  then FileHandles.Apply(old(files.Contents()), number, FileHandles.Cache(cacheStatus))
                                  else old(files.Contents())
    {
      assert allocated(files.Repr());
      var existing := checked;
      if existing == null {
        existing := store.Open(Orig, false, readable);
      }
      assert allocated(files.Repr());
      if existing == null {
        handle, fd := CreateMissing(number, cacheStatus, defaults);
        record := true;
      } else {
        fd, record := existing, number < MAX_PERS_HANDLE;
        handle := if record then number else EPERS_MAXHANDLE;
      }
    }

    /** pclFileOpenRegular after the check */
    method OpenAndRecord(checked: Fd?, permission: FileHandles.Permission, number: Key, cacheStatus: int,
                         defaults: Option<Bytes>, wantBackup: int, backup: string, csum: string)
      returns (handle: Key, fd: Fd)
      requires Valid()
      requires checked != null ==>
                 checked !in Repr() && checked.file == Orig && checked.pos == 0 && store.disk.orig.Some?
      modifies Repr()
      ensures Valid() && (fresh(fd) || fd == checked) && fd !in Repr() && fd.file == Orig && fd.pos == 0
      ensures fd.readable == if checked != null then checked.readable
                             else !permission.WriteOnly? || old(store.disk).orig.None?
      ensures forall o :: o in Repr() ==> o in old(Repr()) || fresh(o)
      ensures handle == (if number < MAX_PERS_HANDLE then number else EPERS_MAXHANDLE)
      ensures store.disk == Opening(old(store.disk), number < MAX_PERS_HANDLE, defaults)
      ensures files.Contents() == Listed(old(files.Contents()), handle, number < MAX_PERS_HANDLE,
                                         old(store.disk).orig.None?, permission, cacheStatus, wantBackup, backup, csum)
    {
      assert allocated(files.Repr());
      var record;
      handle, fd, record := OpenOrCreate(checked, !permission.WriteOnly?, number, cacheStatus, defaults);
      assert allocated(files.Repr());
      if record {
        Record(handle, permission, wantBackup, backup, csum);
      }
    }

    /** The check, the open and the entries in the descriptor table. */
    method OpenSteps(permission: FileHandles.Permission, blacklisted: bool, number: Key, cacheStatus: int,
                     defaults: Option<Bytes>, backup: string, csum: string)
      returns (handle: int, fd: Fd?)
      requires Valid() && number > 0
      modifies Repr()
      ensures Valid()
      ensures forall o :: o in Repr() ==> o in old(Repr()) || fresh(o)
      ensures OpenedTo(old(store.disk), old(files.Contents()), store.disk, files.Contents(), handle,
                       Request(permission, blacklisted, number, cacheStatus, defaults, backup, csum))
      ensures handle == -1 ==> fd == null
      ensures handle == number ==>
                && fd != null && fresh(fd) && fd !in Repr() && fd.file == Orig && fd.pos == 0 && store.disk.orig.Some?
                && fd.readable == OpensReadable(old(store.disk), permission, blacklisted)
    {
      CheckClears(store.disk, permission, blacklisted);
      assert allocated(files.Repr());
      var verified;
      handle, verified := CheckFirst(permission, blacklisted);
      fd := null;
      if handle == -1 {
        return;
      }
      var wantBackup := if !permission.ReadOnly? && !blacklisted then 0 else 1;
      assert allocated(files.Repr());
      handle, fd := OpenAndRecord(verified, permission, number, cacheStatus, defaults, wantBackup, backup, csum);
    }

    /**
     pclFileOpenRegular of a configured resource. `number` is the descriptor the system would give out, `defaults` the
     default data found for the resource. A successful open of a protected file hands over a disk that recovery would
     leave alone, and a descriptor at 0 whose first write takes the backup, unless the default-data user left a record.
     */
    method OpenRegular(permission: FileHandles.Permission, blacklisted: bool, number: Key, cacheStatus: int,
                       defaults: Option<Bytes>, backup: string, csum: string)
      returns (handle: int, fd: Fd?)
      requires Valid() && number > 0
      modifies Repr()
      ensures Valid()
      ensures forall o :: o in Repr() ==> o in old(Repr()) || fresh(o)
      ensures OpenedTo(old(store.disk), old(files.Contents()), store.disk, files.Contents(), handle,
                       Request(permission, blacklisted, number, cacheStatus, defaults, backup, csum))
      ensures handle == -1 ==> fd == null
      ensures handle == number ==>
                && fd != null && fresh(fd) && fd !in Repr() && fd.file == Orig && fd.pos == 0 && store.disk.orig.Some?
                && fd.readable == OpensReadable(old(store.disk), permission, blacklisted)
      ensures handle == number && Checked(permission, blacklisted) ==>
                && (Armed(number) <==> !LeftByDefaultUser(old(files.Contents()), number))
                && number in files.Contents() && files.Contents()[number].permission == permission
                && (!permission.WriteOnly? ==> Settled(store.disk))
    {
      ghost var d, m := store.disk, files.Contents();
      handle, fd := OpenSteps(permission, blacklisted, number, cacheStatus, defaults, backup, csum);
      if handle == number && Checked(permission, blacklisted) {
        OpenedReady(d, m, store.disk, files.Contents(),
                    Request(permission, blacklisted, number, cacheStatus, defaults, backup, csum));
      }
    }

    /** The part of pclFileWriteData before the write itself. */
    method BackupIfFirst(fd: Fd, number: Key)
      requires Valid() && fd !in Repr() && fd.file == Orig && store.disk.orig.Some?
      modifies Repr(), fd
      ensures Valid() && fd.pos == old(fd.pos) && !Armed(number)
      ensures forall o :: o in Repr() ==> o in old(Repr()) || fresh(o)
      ensures store.log == old(store.log) + FirstEffects(old(State(fd, number)))
      ensures store.disk == if old(Armed(number)) then SavedAs(old(store.disk), fd.readable) else old(store.disk)
      ensures files.Contents() == if old(Armed(number))
          then FileHandles.Apply(old(files.Contents()), number, FileHandles.Backup(1, ("", "")))
                                  else old(files.Contents())
    {
      assert allocated(files.Repr());
      var found := files.Get(number);
      if found.Some? && found.value.backupCreated == 0 && found.value.userId != PCL_USER_DEFAULTDATA {
        store.TakeBackup(fd);
        assert allocated(files.Repr());
        assert files.Valid() && files.Contents() == old(files.Contents());
        files.SetFileBackupStatus(number, 1, ("", ""));
      }
    }

    /** The branch of pclFileWriteData that writes. */
    method WriteThrough(fd: Fd, number: Key, data: Bytes) returns (size: int)
      requires Valid() && fd !in Repr() && fd.file == Orig && store.disk.orig.Some?
      modifies Repr(), fd
      ensures Valid() && store.disk.orig.Some? && size == |data|
      ensures forall o :: o in Repr() ==> o in old(Repr()) || fresh(o)
      ensures store.log == old(store.log) + WriteEffects(old(State(fd, number)), data)
      ensures State(fd, number) == After(old(State(fd, number)), Write(data))
      ensures files.Contents() == if old(Armed(number))
          then FileHandles.Apply(old(files.Contents()), number, FileHandles.Backup(1, ("", "")))
                                  else old(files.Contents())
    {
      ghost var s, l := State(fd, number), store.log;
      BackupIfFirst(fd, number);
      assert allocated(files.Repr());
      size := store.Write(fd, data);
      WriteIsPlain(s, data);
      AfterWrite(s, data, State(fd, number));
      assert store.log == l + WriteEffects(s, data);
    }

    /** pclFileWriteData */
    method WriteData(fd: Fd, number: Key, data: Bytes) returns (size: int)
      requires Valid() && fd !in Repr() && fd.file == Orig && store.disk.orig.Some?
      modifies Repr(), fd
      ensures Valid() && store.disk.orig.Some?
      ensures forall o :: o in Repr() ==> o in old(Repr()) || fresh(o)
      ensures match old(Permission(number))
        case Unset => size == EPERS_MAXHANDLE && unchanged(store) && unchanged(fd)
            && files.Contents() == old(files.Contents())
        case ReadOnly => size == EPERS_RESOURCE_READ_ONLY && unchanged(store) && unchanged(fd)
            && files.Contents() == old(files.Contents())
        case _ =>
          && size == |data|
          && store.log == old(store.log) + old(WriteEffects(State(fd, number), data))
          && State(fd, number) == old(After(State(fd, number), Write(data)))
          && files.Contents() == if old(Armed(number))
              then FileHandles.Apply(old(files.Contents()), number, FileHandles.Backup(1, ("", "")))
                                 else old(files.Contents())
    {
      assert allocated(files.Repr());
      var permission := files.GetFilePermission(number);
      if permission.Unset? {
        return EPERS_MAXHANDLE;
      }
      if permission.ReadOnly? {
        return EPERS_RESOURCE_READ_ONLY;
      }
      size := WriteThrough(fd, number, data);
    }

    /** pclFileClose */
    method Close(fd: Fd, number: Key) returns (rval: int)
      requires Valid() && fd !in Repr()
      modifies Repr()
      ensures Valid() && Repr() <= old(Repr())
      ensures old(Permission(number)).Unset? ==>
                rval == EPERS_MAXHANDLE && unchanged(store) && files.Contents() == old(files.Contents())
      ensures !old(Permission(number)).Unset? ==> rval == 0 && files.Contents() == old(files.Contents()) - {number}
      ensures store.log == old(store.log)
                + if old(Permission(number)).ReadWrite? || old(Permission(number)).WriteOnly? then CLOSE else []
    {
      assert allocated(files.Repr());
      var permission := files.GetFilePermission(number);
      if permission.Unset? {
        return EPERS_MAXHANDLE;
      }
      if !permission.ReadOnly? && !permission.LastEntry? {
        store.Do(Remove(Backup));
        store.Do(Remove(Sum));
        assert store.log == old(store.log) + CLOSE;
      }
      assert allocated(files.Repr());
      var _ := files.RemoveFileHandleData(number);
      rval := 0;
    }
  }
}
