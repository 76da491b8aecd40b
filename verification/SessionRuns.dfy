/** A whole session on one writable file: any seeks and writes between open and close, and a crash anywhere in them. */
module SessionRuns {
  import opened Options
  import opened Crc32
  import opened Disks
  import opened BackupProtocol

  datatype Call = Write(data: Bytes) | Seek(to: nat)

  /** `armed`: the next write takes the backup first; `readable`: not opened for writing only. */
  datatype Session = Session(disk: Disk, pos: nat, armed: bool, readable: bool)

  /** What the next write does before it writes. */
  function FirstEffects(s: Session): seq<Effect>
    requires s.disk.orig.Some?
  {
    if s.armed then BackupPre(s.disk) + PostAs(s.disk.orig.value, s.readable) else []
  }

  /** pclFileWriteData on a writable file */
  function WriteEffects(s: Session, data: Bytes): seq<Effect>
    requires s.disk.orig.Some?
  {
    FirstEffects(s) + [WriteAt(Orig, s.pos, data)]
  }

  lemma BackupEffects(d: Disk)
    requires d.orig.Some?
    ensures ExecAll(d, BackupPre(d) + BackupPost(d.orig.value)) == SavedAs(d, true)
  {
    var o := d.orig.value;
    PreTruncates(d);
    ExecConcat(d, BackupPre(d), BackupPost(o));
    var d0 := ExecAll(d, BackupPre(d));
    var p0, p1, p2 := BackupPost(o), [Truncate(Backup), WriteAt(Backup, 0, o)], [WriteAt(Backup, 0, o)];
    assert p0[1..] == p1 && p1[1..] == p2 && p2[1..] == [];
    assert Splice([], 0, Csum(o)) == Csum(o) && Splice([], 0, o) == o;
    var d1 := Exec(d0, p0[0]);
    var d2 := Exec(d1, p1[0]);
    assert ExecAll(d0, p0) == ExecAll(d1, p1) == ExecAll(d2, p2) == ExecAll(Exec(d2, p2[0]), []);
  }

  lemma UnreadEffects(d: Disk)
    requires d.orig.Some?
    ensures ExecAll(d, BackupPre(d) + UNREAD_POST) == SavedAs(d, false)
  {
    PreTruncates(d);
    ExecConcat(d, BackupPre(d), UNREAD_POST);
    var d0 := ExecAll(d, BackupPre(d));
    var d1 := Exec(d0, WriteAt(Sum, 0, []));
    assert UNREAD_POST[1..] == [Truncate(Backup)] && [Truncate(Backup)][1..] == [];
    assert ExecAll(d0, UNREAD_POST) == ExecAll(d1, [Truncate(Backup)]) == ExecAll(Exec(d1, Truncate(Backup)), []);
  }

  lemma FirstSaves(s: Session)
    requires s.disk.orig.Some? && s.armed
    ensures ExecAll(s.disk, FirstEffects(s)) == SavedAs(s.disk, s.readable)
  {
    if s.readable {
      BackupEffects(s.disk);
    } else {
      UnreadEffects(s.disk);
    }
  }

  /** One write acts on the original as on a plain file; the first one also leaves its copy and checksum behind. */
  lemma WriteIsPlain(s: Session, data: Bytes)
    requires s.disk.orig.Some?
    ensures var d := if s.armed then SavedAs(s.disk, s.readable) else s.disk;
      ExecAll(s.disk, WriteEffects(s, data)) == d.(orig := Some(Splice(s.disk.orig.value, s.pos, data)))
  {
    var w := [WriteAt(Orig, s.pos, data)];
    assert w[1..] == [];
    if s.armed {
      FirstSaves(s);
      ExecConcat(s.disk, FirstEffects(s), w);
      var d1 := SavedAs(s.disk, s.readable);
      assert ExecAll(d1, w) == Exec(d1, w[0]);
    } else {
      assert WriteEffects(s, data) == w;
      assert ExecAll(s.disk, w) == Exec(s.disk, w[0]);
    }
  }

  function After(s: Session, c: Call): (r: Session)
    requires s.disk.orig.Some?
    ensures r.disk.orig.Some?
  {
    match c
    case Seek(to) => s.(pos := to)
    case Write(data) =>
      WriteIsPlain(s, data);
      Session(ExecAll(s.disk, WriteEffects(s, data)), s.pos + |data|, false, s.readable)
  }

  function Run(s: Session, calls: seq<Call>): (r: Session)
    requires s.disk.orig.Some?
    ensures r.disk.orig.Some?
    decreases |calls|
  {
    if calls == [] then s else Run(After(s, calls[0]), calls[1..])
  }

  /** Everything a session does to the disk. */
  function Effects(s: Session, calls: seq<Call>): seq<Effect>
    requires s.disk.orig.Some?
    decreases |calls|
  {
    if calls == [] then []
    else (if calls[0].Write? then WriteEffects(s, calls[0].data) else []) + Effects(After(s, calls[0]), calls[1..])
  }

  lemma {:induction false} EffectsRun(s: Session, calls: seq<Call>)
    requires s.disk.orig.Some?
    ensures ExecAll(s.disk, Effects(s, calls)) == Run(s, calls).disk
    decreases |calls|
  {
    if calls != [] {
      var first := if calls[0].Write? then WriteEffects(s, calls[0].data) else [];
      ExecConcat(s.disk, first, Effects(After(s, calls[0]), calls[1..]));
      EffectsRun(After(s, calls[0]), calls[1..]);
    }
  }

  // ---------- the backup is invisible ----------

  /** A file that has no backup. */
  datatype Plain = Plain(content: Bytes, pos: nat)

  function PlainRun(p: Plain, calls: seq<Call>): Plain
    decreases |calls|
  {
    if calls == [] then p
    else PlainRun(match calls[0]
                  case Seek(to) => p.(pos := to)
                  case Write(data) => Plain(Splice(p.content, p.pos, data), p.pos + |data|), calls[1..])
  }

  predicate Writes(calls: seq<Call>)
    decreases |calls|
  {
    calls != [] && (calls[0].Write? || Writes(calls[1..]))
  }

  /**
   Copy-on-write transparency: content and position are those of a plain file after the same calls. From the first write
   on the backup holds the whole content from before it, with its checksum; or nothing, if the file cannot be read.
   */
  lemma {:induction false} Transparent(s: Session, calls: seq<Call>)
    requires s.disk.orig.Some?
    ensures var r := Run(s, calls); var p := PlainRun(Plain(s.disk.orig.value, s.pos), calls);
      && r.disk.orig == Some(p.content) && r.pos == p.pos && r.readable == s.readable
      && var d := if s.armed && Writes(calls) then SavedAs(s.disk, s.readable) else s.disk;
         r.disk.backup == d.backup && r.disk.csum == d.csum && r.armed == (s.armed && !Writes(calls))
    decreases |calls|
  {
    if calls != [] {
      if calls[0].Write? {
        WriteIsPlain(s, calls[0].data);
      }
      Transparent(After(s, calls[0]), calls[1..]);
    }
  }

  // ---------- a crash anywhere in a session ----------

  lemma {:induction false} PlainEffects(s: Session, calls: seq<Call>)
    requires s.disk.orig.Some? && !s.armed
    ensures OnlyOrig(Effects(s, calls))
    decreases |calls|
  {
    if calls != [] {
      PlainEffects(After(s, calls[0]), calls[1..]);
    }
  }

  lemma Regroup(a: seq<Effect>, b: seq<Effect>, c: seq<Effect>, d: seq<Effect>)
    ensures ((a + b) + c) + d == a + (b + (c + d))
  {
  }

  /** The disk calls of a session that writes: the two halves of the backup, then nothing but writes to the original. */
  lemma {:induction false} EffectsSplit(s: Session, calls: seq<Call>) returns (writes: seq<Effect>)
    requires s.disk.orig.Some? && s.armed && Writes(calls)
    ensures OnlyOrig(writes)
    ensures Effects(s, calls) == BackupPre(s.disk) + (PostAs(s.disk.orig.value, s.readable) + writes)
    decreases |calls|
  {
    if calls[0].Write? {
      var rest := Effects(After(s, calls[0]), calls[1..]);
      PlainEffects(After(s, calls[0]), calls[1..]);
      var first := [WriteAt(Orig, s.pos, calls[0].data)];
      writes := first + rest;
      Regroup(BackupPre(s.disk), PostAs(s.disk.orig.value, s.readable), first, rest);
    } else {
      writes := EffectsSplit(After(s, calls[0]), calls[1..]);
    }
  }

  lemma {:induction false} NoEffects(s: Session, calls: seq<Call>)
    requires s.disk.orig.Some? && !Writes(calls)
    ensures Effects(s, calls) == []
    decreases |calls|
  {
    if calls != [] {
      NoEffects(After(s, calls[0]), calls[1..]);
    }
  }

  /** What pclVerifyConsistency leaves when it succeeds: it would not change it again. */
  ghost predicate Settled(d: Disk) {
    Verify(d).1 != Lost && Recover(d) == d
  }

  /** Recoveries of a settled disk, however often they crash, end with the same original. */
  lemma {:induction false} SettledKeeps(o: Bytes, d: Disk, chain: seq<Disk>, last: Disk)
    requires d.orig == Some(o) && o != [] && Settled(d) && Crashes(d, chain, last)
    ensures Recover(last).orig == Some(o)
    decreases |chain|
  {
    RecoverEffect(d);
    if Verify(d).0 == [] {
      if chain != [] {
        SettledKeeps(o, chain[0], chain[1..], last);
      }
    } else {
      assert Protected(o, d);
      CrashesKeep(o, d, chain, last);
      ProtectedRecovers(o, last);
    }
  }

  /** A crash in the first half of the backup. */
  lemma PreCrash(o: Bytes, d: Disk, r: Disk)
    requires d.orig == Some(o) && o != [] && Settled(d) && Crashed(d, BackupPre(d), r)
    ensures r == d || Protected(o, r) || (d.backup.None? && d.csum.None? && r == Exec(d, Truncate(Backup)))
  {
    RecoverEffect(d);
    var pre := BackupPre(d);
    if d.backup.None? {
      var d1 := Exec(d, Truncate(Backup));
      assert pre[0] == Truncate(Backup) && pre[1..] == [Truncate(Sum)] && pre[1..][1..] == [];
      assert r == d || Crashed(d1, pre[1..], r);
    } else {
      assert pre == [Truncate(Sum)] && pre[1..] == [];
    }
  }

  lemma {:induction false} CrashedConcat(d: Disk, a: seq<Effect>, b: seq<Effect>, r: Disk)
    requires Crashed(d, a + b, r)
    ensures Crashed(d, a, r) || Crashed(ExecAll(d, a), b, r)
    decreases |a|
  {
    if a == [] {
      assert a + b == b;
    } else {
      assert (a + b)[1..] == a[1..] + b;
      if Crashed(Exec(d, a[0]), a[1..] + b, r) {
        CrashedConcat(Exec(d, a[0]), a[1..], b, r);
      }
    }
  }

  /**
   Crash safety of whole sessions. The file was opened with content o on a settled disk; the application seeks and
   writes as it likes; the machine stops anywhere in that, and then in any number of recoveries. The first recovery
   that completes gives o back, unless the crash fell between creating the backup file and opening the checksum file
   of a resource that had neither.
   */
  lemma SessionCrashSafety(s: Session, o: Bytes, calls: seq<Call>, r: Disk, chain: seq<Disk>, last: Disk)
    requires s.armed && s.readable && s.disk.orig == Some(o) && o != [] && Settled(s.disk)
    requires NoPrefixCollision(o) && NoStaleCollision(s.disk, o)
    requires Crashed(s.disk, Effects(s, calls), r) && Crashes(r, chain, last)
    requires !(s.disk.backup.None? && s.disk.csum.None? && r == Exec(s.disk, Truncate(Backup)))
    ensures Recover(last).orig == Some(o)
  {
    var d := s.disk;
    if !Writes(calls) {
      NoEffects(s, calls);
      SettledKeeps(o, d, chain, last);
    } else {
      var writes := EffectsSplit(s, calls);
      CrashedConcat(d, BackupPre(d), BackupPost(o) + writes, r);
      if Crashed(d, BackupPre(d), r) {
        PreCrash(o, d, r);
        if r == d {
          SettledKeeps(o, d, chain, last);
        } else {
          CrashesKeep(o, r, chain, last);
          ProtectedRecovers(o, last);
        }
      } else {
        CrashSafety(d, o, writes, r, chain, last);
      }
    }
  }

  /**
   A file opened for writing only has no such protection: once its first write has taken the backup, whatever a crash
   makes of the original, in this write or later, stays through any recovery by any kind of open.
   */
  lemma WriteOnlyUnprotected(s: Session, data: Bytes, calls: seq<Call>, r: Disk, readable: bool)
    requires s.armed && !s.readable && s.disk.orig.Some?
    requires Crashed(SavedAs(s.disk, false), [WriteAt(Orig, s.pos, data)] + Effects(After(s, Write(data)), calls), r)
    ensures r.backup == Some([]) && r.csum == Some([]) && VerifyAs(r, readable) == ([], Nothing)
  {
    var t := After(s, Write(data));
    PlainEffects(t, calls);
    AbandonedWrites(SavedAs(s.disk, false), [WriteAt(Orig, s.pos, data)] + Effects(t, calls), r);
    AbandonedStays(r, readable);
  }

  /** The helper files have nothing to say: the next open leaves the resource alone. */
  ghost predicate Silent(d: Disk) {
    d.backup.Some? && d.csum == Some([])
  }

  /** Keeps a resource silent, also when it is cut short. */
  predicate KeepsSilent(e: Effect) {
    !e.Remove? && (e.WriteAt? && e.f == Sum ==> e.data == [])
  }

  lemma {:induction false} SilentCrash(d: Disk, plan: seq<Effect>, r: Disk)
    requires Silent(d) && (forall i :: 0 <= i < |plan| ==> KeepsSilent(plan[i])) && Crashed(d, plan, r)
    ensures Silent(r)
    decreases |plan|
  {
    if r != d && Crashed(Exec(d, plan[0]), plan[1..], r) {
      assert forall i :: 0 <= i < |plan[1..]| ==> plan[1..][i] == plan[i + 1];
      SilentCrash(Exec(d, plan[0]), plan[1..], r);
    }
  }

  lemma PostKeepsSilent(writes: seq<Effect>)
    requires OnlyOrig(writes)
    ensures var plan := BackupPost([]) + writes; forall i :: 0 <= i < |plan| ==> KeepsSilent(plan[i])
  {
  }

  lemma SilentStays(d: Disk, readable: bool)
    requires Silent(d)
    ensures VerifyAs(d, readable) == ([], Nothing)
  {
  }

  lemma EmptyPreCrash(d: Disk, r: Disk)
    requires d.orig == Some([]) && Settled(d) && Crashed(d, BackupPre(d), r)
    ensures Silent(r) || (r.orig == Some([]) && Settled(r))
  {
    RecoverEffect(d);
    var pre := BackupPre(d);
    if d.backup.None? {
      var d1 := Exec(d, Truncate(Backup));
      assert pre[0] == Truncate(Backup) && pre[1..] == [Truncate(Sum)] && pre[1..][1..] == [];
      RecoverEffect(d1);
      assert r == d || Crashed(d1, pre[1..], r);
    } else {
      assert pre == [Truncate(Sum)] && pre[1..] == [];
    }
  }

  /** A settled empty file is left alone by any kind of open. */
  lemma EmptySettled(d: Disk, readable: bool)
    requires d.orig == Some([]) && Settled(d)
    ensures VerifyAs(d, readable).0 == [] && VerifyAs(d, readable).1 != Lost
  {
    RecoverEffect(d);
  }

  /**
   A file that is empty at open has none either: its checksum is the empty text. The application seeks and writes as
   it likes; wherever the machine stops, in the backup too, every open afterwards leaves the disk as the crash did.
   */
  lemma EmptyUnprotected(s: Session, calls: seq<Call>, r: Disk, readable: bool)
    requires s.armed && s.readable && s.disk.orig == Some([]) && Settled(s.disk)
    requires Crashed(s.disk, Effects(s, calls), r)
    ensures VerifyAs(r, readable).0 == [] && VerifyAs(r, readable).1 != Lost
  {
    var d := s.disk;
    if !Writes(calls) {
      NoEffects(s, calls);
      EmptySettled(d, readable);
    } else {
      var writes := EffectsSplit(s, calls);
      CrashedConcat(d, BackupPre(d), BackupPost([]) + writes, r);
      if Crashed(d, BackupPre(d), r) {
        EmptyPreCrash(d, r);
        if !Silent(r) {
          EmptySettled(r, readable);
          return;
        }
      } else {
        PreTruncates(d);
        PostKeepsSilent(writes);
        SilentCrash(ExecAll(d, BackupPre(d)), BackupPost([]) + writes, r);
      }
      SilentStays(r, readable);
    }
  }

  /** A session that is closed properly leaves what a plain file would hold, and nothing for the next open to do. */
  lemma ClosedSession(s: Session, calls: seq<Call>)
    requires s.disk.orig.Some?
    ensures var d := ExecAll(s.disk, Effects(s, calls) + CLOSE);
      && d == Disk(Some(PlainRun(Plain(s.disk.orig.value, s.pos), calls).content), None, None)
      && Verify(d) == ([], Nothing)
  {
    EffectsRun(s, calls);
    Transparent(s, calls);
    var e := Run(s, calls).disk;
    ExecConcat(s.disk, Effects(s, calls), CLOSE);
    assert CLOSE[1..] == [Remove(Sum)] && [Remove(Sum)][1..] == [];
    var e1 := Exec(e, Remove(Backup));
    assert ExecAll(e, CLOSE) == ExecAll(e1, [Remove(Sum)]) == ExecAll(Exec(e1, Remove(Sum)), []);
  }
}
