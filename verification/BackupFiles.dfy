/** src/persistence_client_library_backup_filelist.c and _file.c: the calls, on descriptors with positions. */
module BackupFiles {
  import opened Options
  import opened Crc32
  import opened Disks
  import opened BackupProtocol

  function HandleOf(o: Outcome): int {
    match o
    case Nothing => 0
    case Opened => 3
    case Lost => -1
  }

  class Fd {
    const file: File
    const readable: bool
    var pos: nat

    constructor (f: File, r: bool)
      ensures file == f && readable == r && pos == 0
    {
      file, readable, pos := f, r, 0;
    }
  }

  /** The disk, with a record of every call that changed it. */
  class Store {
    var disk: Disk
    ghost const start: Disk
    ghost var log: seq<Effect>

    ghost predicate Valid()
      reads this
    {
      disk == ExecAll(start, log)
    }

    constructor (d: Disk)
      ensures Valid() && disk == d && log == []
    {
      disk, start, log := d, d, [];
    }

    function Content(f: File): Bytes
      requires disk.Get(f).Some?
      reads this
    {
      disk.Get(f).value
    }

    method Do(e: Effect)
      requires Valid()
      modifies this
      ensures Valid() && disk == Exec(old(disk), e) && log == old(log) + [e]
    {
      ExecConcat(start, log, [e]);
      assert [e][1..] == [];
      disk := Exec(disk, e);
      log := log + [e];
    }

    /** open with O_CREAT | O_TRUNC, and O_RDWR or O_WRONLY */
    method Create(f: File, readable: bool) returns (fd: Fd)
      requires Valid()
      modifies this
      ensures Valid() && disk == Exec(old(disk), Truncate(f)) && log == old(log) + [Truncate(f)]
      ensures fresh(fd) && fd.file == f && fd.readable == readable && fd.pos == 0
    {
      Do(Truncate(f));
      fd := new Fd(f, readable);
    }

    /** open without O_CREAT; with O_TRUNC if asked for */
    method Open(f: File, truncate: bool, readable: bool) returns (fd: Fd?)
      requires Valid()
      modifies this
      ensures Valid() && (fd == null <==> old(disk).Get(f).None?)
      ensures fd != null ==> fresh(fd) && fd.file == f && fd.readable == readable && fd.pos == 0
      ensures if fd != null && truncate then disk == Exec(old(disk), Truncate(f)) && log == old(log) + [Truncate(f)]
              else disk == old(disk) && log == old(log)
    {
      if disk.Get(f).None? {
        return null;
      }
      if truncate {
        Do(Truncate(f));
      }
      fd := new Fd(f, readable);
    }

    /** read(2): everything asked for, up to the end of the file; a descriptor for writing only gives nothing. */
    method Read(fd: Fd, n: nat) returns (data: Bytes)
      requires disk.Get(fd.file).Some?
      modifies fd
      ensures !fd.readable ==> data == [] && fd.pos == old(fd.pos)
      ensures fd.readable ==> var c := Content(fd.file); var p := if old(fd.pos) > |c| then |c| else old(fd.pos);
        data == c[p..if p + n > |c| then |c| else p + n] && fd.pos == old(fd.pos) + |data|
    {
      if !fd.readable {
        return [];
      }
      var c := Content(fd.file);
      var p := if fd.pos > |c| then |c| else fd.pos;
      data := c[p..if p + n > |c| then |c| else p + n];
      fd.pos := fd.pos + |data|;
    }

    method Write(fd: Fd, data: Bytes) returns (n: nat)
      requires Valid() && disk.Get(fd.file).Some?
      modifies this, fd
      ensures Valid() && n == |data| && fd.pos == old(fd.pos) + |data|
      ensures disk == Exec(old(disk), WriteAt(fd.file, old(fd.pos), data))
      ensures log == old(log) + [WriteAt(fd.file, old(fd.pos), data)]
    {
      Do(WriteAt(fd.file, fd.pos, data));
      fd.pos := fd.pos + |data|;
      n := |data|;
    }

    /**
     pclBackupDoFileCopy: sendfile from the source's position, unless that cannot be read, then the destination back to
     its start.
     */
    method DoFileCopy(src: Fd, dst: Fd)
      requires Valid() && src.file != dst.file && src != dst && src.pos == 0
      requires disk.Get(src.file).Some? && disk.Get(dst.file).Some?
      modifies this, src, dst
      ensures Valid() && dst.pos == 0
      ensures !src.readable ==> disk == old(disk) && log == old(log)
      ensures src.readable ==>
                && log == old(log) + [WriteAt(dst.file, old(dst.pos), old(Content(src.file)))]
                && disk == Exec(old(disk), WriteAt(dst.file, old(dst.pos), old(Content(src.file))))
    {
      if src.readable {
        var data := Read(src, |Content(src.file)|);
        assert data == Content(src.file);
        var _ := Write(dst, data);
      }
      dst.pos := 0;
    }

    /** pclCalcCrc32Csum: empty text if the file cannot be read; the position is where it was before. */
    method CalcCsum(fd: Fd) returns (csum: Bytes)
      requires disk.Get(fd.file).Some?
      modifies fd
      ensures csum == (if fd.readable then Csum(Content(fd.file)) else []) && fd.pos == old(fd.pos)
      ensures fd.readable && Content(fd.file) != [] ==> Spells(csum, Crc(0, Content(fd.file)) as nat)
    {
      csum := [];
      var size := |Content(fd.file)|;
      var curPos := fd.pos;
      if curPos != 0 {
        fd.pos := 0;
      }
      var buf := Read(fd, size);
      while |buf| > 0
        invariant fd.pos >= |buf| && (|buf| > 0 ==> fd.pos == size && buf == Content(fd.file))
        invariant |buf| > 0 ==> fd.readable
        invariant |buf| == 0 ==> csum == if fd.readable then Csum(Content(fd.file)) else []
        decreases |buf|
      {
        var crc := PclCrc32(0, Some(buf));
        csum := Hex(crc as nat);
        buf := Read(fd, size);
      }
      fd.pos := curPos;
      if fd.readable && Content(fd.file) != [] {
        CsumExactly(Content(fd.file), csum);
      }
    }

    /** pclRecoverFromBackup: the descriptor it opens can be read and written. */
    method RecoverFromBackup(backup: Fd) returns (fd: Fd?)
      requires Valid() && backup.file == Backup && backup.readable && backup.pos == 0 && disk.backup.Some?
      modifies this, backup
      ensures Valid() && (fd == null <==> old(disk).orig.None?)
      ensures fd != null ==> fresh(fd) && fd.file == Orig && fd.readable && fd.pos == 0
      ensures log == old(log) + if fd == null then [] else [Truncate(Orig), WriteAt(Orig, 0, old(disk).backup.value)]
      ensures fd == null ==> disk == old(disk)
    {
      fd := Open(Orig, true, true);
      if fd != null {
        DoFileCopy(backup, fd);
      }
    }

    /** Nothing can be trusted: all three files go. */
    method Wipe()
      requires Valid()
      modifies this
      ensures Valid() && log == old(log) + WIPE
    {
      Do(Remove(Orig));
      Do(Remove(Backup));
      Do(Remove(Sum));
      assert log == old(log) + WIPE;
    }

    /** The descriptor an outcome comes with. */
    ghost predicate Delivers(handle: int, fd: Fd?, readable: bool) {
      && (fd != null <==> handle == 3)
      && (fd != null ==> fd.file == Orig && fd.readable == readable)
    }

    /** The branch of pclVerifyConsistency with both helper files: the original is replaced, kept or given up. */
    method VoteOfThree(readable: bool) returns (handle: int, fd: Fd?)
      requires Valid() && disk.backup.Some? && disk.csum.Some?
      modifies this
      ensures Valid() && handle == HandleOf(VerifyAs(old(disk), readable).1)
      ensures log == old(log) + if handle == -1 then [] else VerifyAs(old(disk), readable).0
      ensures handle == -1 ==> disk == old(disk)
      ensures Delivers(handle, fd, readable || VerifyAs(old(disk), readable).0 != [])
      ensures fd != null ==> fresh(fd) && fd.pos == 0
    {
      handle, fd := 0, null;
      var fdBackup := Open(Backup, false, true);
      var backCsum := CalcCsum(fdBackup);
      var fdCsum := Open(Sum, false, true);
      var csum := Read(fdCsum, |Content(Sum)|);
      assert csum == disk.csum.value;
      if |csum| > 0 {
        if csum == backCsum {
          fd := RecoverFromBackup(fdBackup);
          handle := if fd == null then -1 else 3;
        } else {
          handle, fd := OpenChecked(csum, backCsum, true, readable);
        }
      }
    }

    /** The branches with one helper file: the original is kept if it fits. */
    method VoteOfTwo(readable: bool) returns (handle: int, fd: Fd?)
      requires Valid() && (disk.backup.Some? <==> disk.csum.None?)
      modifies this
      ensures Valid() && disk == old(disk) && log == old(log)
      ensures handle == HandleOf(VerifyAs(old(disk), readable).1)
      ensures handle != -1 ==> VerifyAs(old(disk), readable).0 == []
      ensures Delivers(handle, fd, readable)
      ensures fd != null ==> fresh(fd) && fd.pos == 0
    {
      if disk.csum.Some? {
        var fdCsum := Open(Sum, false, true);
        var csum := Read(fdCsum, |Content(Sum)|);
        assert csum == disk.csum.value;
        handle, fd := OpenChecked(csum, [], false, readable);
      } else {
        var fdBackup := Open(Backup, false, true);
        var backCsum := CalcCsum(fdBackup);
        handle, fd := OpenChecked(backCsum, [], false, readable);
      }
    }

    /** pclVerifyConsistency: 0, a descriptor (3), or -1 */
    method VerifyConsistency(readable: bool) returns (handle: int, fd: Fd?)
      requires Valid()
      modifies this
      ensures Valid() && log == old(log) + VerifyAs(old(disk), readable).0
      ensures disk == ExecAll(old(disk), VerifyAs(old(disk), readable).0)
      ensures handle == HandleOf(VerifyAs(old(disk), readable).1)
      ensures handle == 0 <==> if old(disk).backup.Some? then old(disk).csum == Some([]) else old(disk).csum.None?
      ensures handle == 0 ==> disk == old(disk)
      ensures handle == -1 ==> disk == Disk(None, None, None)
      ensures handle > 0 ==>
                var d := old(disk);
                disk == if d.backup.Some? && d.csum == Some(Csum(d.backup.value)) then d.(orig := d.backup) else d
      ensures Delivers(handle, fd, readable || VerifyAs(old(disk), readable).0 != [])
      ensures fd != null ==> fresh(fd) && fd.pos == 0
    {
      ghost var d, l := disk, log;
      handle, fd := 0, null;
      if disk.backup.Some? && disk.csum.Some? {
        handle, fd := VoteOfThree(readable);
      } else if disk.csum.Some? || disk.backup.Some? {
        handle, fd := VoteOfTwo(readable);
      }
      if handle == -1 {
        Wipe();
      }
      assert log == l + VerifyAs(d, readable).0;
      ExecConcat(start, l, VerifyAs(d, readable).0);
      RecoverAsEffect(d, readable);
    }

    /** Opens the original and keeps it if its checksum is `one`, or `two` when there are two to compare with. */
    method OpenChecked(one: Bytes, two: Bytes, both: bool, readable: bool) returns (handle: int, fd: Fd?)
      requires Valid()
      modifies this
      ensures Valid() && disk == old(disk) && log == old(log)
      ensures handle == if disk.orig.Some? && (Seen(disk, readable) == one || (both && Seen(disk, readable) == two))
          then 3 else -1
      ensures Delivers(handle, fd, readable)
      ensures fd != null ==> fresh(fd) && fd.pos == 0
    {
      fd := Open(Orig, false, readable);
      handle := if fd == null then -1 else 3;
      if fd != null {
        var origCsum := CalcCsum(fd);
        if origCsum != one {
          if !both || origCsum != two {
            handle, fd := -1, null;
          }
        }
      }
    }

    /** pclCreateBackup up to the opened checksum file */
    method OpenCsum() returns (csfd: Fd)
      requires Valid()
      modifies this
      ensures Valid() && fresh(csfd) && csfd.file == Sum && csfd.pos == 0
      ensures log == old(log) + BackupPre(old(disk))
      ensures disk == old(disk).(backup := if old(disk).backup.None? then Some([])
          else old(disk).backup, csum := Some([]))
    {
      ghost var l, pre := log, BackupPre(disk);
      if disk.backup.None? {
        var handle := Create(Backup, true);
      }
      csfd := Create(Sum, false);
      assert log == l + pre;
    }

    /** pclCreateBackup from the opening of the backup on */
    method CopyToBackup(src: Fd)
      requires Valid() && src.file == Orig && disk.orig.Some?
      modifies this, src
      ensures Valid() && src.pos == old(src.pos)
      ensures log == old(log) + [Truncate(Backup)]
                + if src.readable then [WriteAt(Backup, 0, old(disk).orig.value)] else []
      ensures disk == old(disk).(backup := if src.readable then old(disk).orig else Some([]))
    {
      ghost var o := disk.orig.value;
      var dst := Create(Backup, false);
      var curPos := src.pos;
      if curPos != 0 {
        src.pos := 0;
      }
      DoFileCopy(src, dst);
      assert Splice([], 0, o) == o;
      src.pos := curPos;
    }

    /** pclCreateBackup */
    method CreateBackup(src: Fd, csum: Bytes)
      requires Valid() && src.file == Orig && disk.orig.Some?
      modifies this, src
      ensures Valid() && src.pos == old(src.pos)
      ensures log == old(log) + BackupPre(old(disk)) + ([WriteAt(Sum, 0, csum), Truncate(Backup)]
                + if src.readable then [WriteAt(Backup, 0, old(disk).orig.value)] else [])
      ensures disk == Disk(old(disk).orig, if src.readable then old(disk).orig else Some([]), Some(csum))
    {
      ghost var o, l, pre := disk.orig.value, log, BackupPre(disk);
      ghost var copy := if src.readable then [WriteAt(Backup, 0, o)] else [];
      var csfd := OpenCsum();
      var _ := Write(csfd, csum);
      assert Splice([], 0, csum) == csum;
      CopyToBackup(src);
      Regroup(l + pre, WriteAt(Sum, 0, csum), Truncate(Backup), copy);
    }

    /** What the first write of a session does: the checksum of the original, then the backup. */
    method TakeBackup(fd: Fd)
      requires Valid() && fd.file == Orig && disk.orig.Some?
      modifies this, fd
      ensures Valid() && fd.pos == old(fd.pos)
      ensures log == old(log) + (BackupPre(old(disk)) + PostAs(old(disk).orig.value, fd.readable))
      ensures disk == SavedAs(old(disk), fd.readable)
    {
      var csum := CalcCsum(fd);
      CreateBackup(fd, csum);
    }
  }

  lemma Regroup(l: seq<Effect>, a: Effect, b: Effect, c: seq<Effect>)
    ensures l + [a] + ([b] + c) == l + ([a, b] + c)
    ensures l + [a] + [b] + c == l + ([a, b] + c)
  {
  }
}
