/**
 The backup protocol on values: what the library does to the three files on first write, on close and on the next
 open, and what survives a crash in between.
 */
module BackupProtocol {
  import opened Options
  import opened Crc32
  import opened Disks

  /** handle 0, a valid descriptor, or -1 */
  datatype Outcome = Nothing | Opened | Lost

  const WIPE: seq<Effect> := [Remove(Orig), Remove(Backup), Remove(Sum)]

  /** What pclCalcCrc32Csum makes of the original; a descriptor that is open for writing only cannot be read. */
  function Seen(d: Disk, readable: bool): Bytes {
    if readable && d.orig.Some? then Csum(d.orig.value) else []
  }

  /** pclVerifyConsistency, as the calls it makes and the result it returns, for an open with these flags. */
  function VerifyAs(d: Disk, readable: bool): (seq<Effect>, Outcome) {
    if d.backup.Some? && d.csum.Some? then
      if d.csum.value == [] then ([], Nothing)
      else if d.orig.None? then (WIPE, Lost)
      else if d.csum.value == Csum(d.backup.value) then
        ([Truncate(Orig), WriteAt(Orig, 0, d.backup.value)], Opened)
      else if d.csum.value != Seen(d, readable) && Csum(d.backup.value) != Seen(d, readable) then (WIPE, Lost)
      else ([], Opened)
    else if d.csum.Some? then
      if d.orig.Some? && d.csum.value == Seen(d, readable) then ([], Opened) else (WIPE, Lost)
    else if d.backup.Some? then
      if d.orig.Some? && Csum(d.backup.value) == Seen(d, readable) then ([], Opened) else (WIPE, Lost)
    else
      ([], Nothing)
  }

  /** The usual case: the original can be read. */
  function Verify(d: Disk): (seq<Effect>, Outcome) {
    VerifyAs(d, true)
  }

  function RecoverAs(d: Disk, readable: bool): Disk {
    ExecAll(d, VerifyAs(d, readable).0)
  }

  function Recover(d: Disk): Disk {
    RecoverAs(d, true)
  }

  /** The part of pclCreateBackup before the checksum file is opened, and that opening. */
  function BackupPre(d: Disk): seq<Effect> {
    (if d.backup.None? then [Truncate(Backup)] else []) + [Truncate(Sum)]
  }

  function BackupPost(o: Bytes): seq<Effect> {
    [WriteAt(Sum, 0, Csum(o)), Truncate(Backup), WriteAt(Backup, 0, o)]
  }

  const CLOSE: seq<Effect> := [Remove(Backup), Remove(Sum)]

  // ---------- the vote ----------

  /** The file f stands for the checksum v; an original that cannot be read stands for the empty text. */
  ghost predicate Voter(d: Disk, readable: bool, v: Bytes, f: File) {
    match f
    case Orig => d.orig.Some? && v == if readable then Csum(d.orig.value) else []
    case Backup => d.backup.Some? && Csum(d.backup.value) == v
    case Sum => d.csum.Some? && d.csum.value == v
  }

  /** Two of the files that exist stand for the checksum v. */
  ghost predicate Majority(d: Disk, readable: bool, v: Bytes) {
    exists f, g :: f != g && Voter(d, readable, v, f) && Voter(d, readable, v, g)
  }

  lemma WipeClears(d: Disk)
    ensures ExecAll(d, WIPE) == Disk(None, None, None)
  {
    var d1 := Exec(d, Remove(Orig));
    var d2 := Exec(d1, Remove(Backup));
    assert WIPE[1..] == [Remove(Backup), Remove(Sum)] && WIPE[1..][1..] == [Remove(Sum)];
    assert ExecAll(d, WIPE) == ExecAll(d1, [Remove(Backup), Remove(Sum)]) == ExecAll(d2, [Remove(Sum)]);
    assert [Remove(Sum)][1..] == [];
  }

  lemma RestoreCopies(d: Disk, c: Bytes)
    ensures ExecAll(d, [Truncate(Orig), WriteAt(Orig, 0, c)]) == d.(orig := Some(c))
  {
    var d1 := Exec(d, Truncate(Orig));
    assert [Truncate(Orig), WriteAt(Orig, 0, c)][1..] == [WriteAt(Orig, 0, c)];
    assert [WriteAt(Orig, 0, c)][1..] == [];
    assert Splice([], 0, c) == c;
    assert ExecAll(d, [Truncate(Orig), WriteAt(Orig, 0, c)]) == ExecAll(d1, [WriteAt(Orig, 0, c)]);
  }

  /** What a recovery leaves behind, by its result and for either kind of open. */
  lemma RecoverAsEffect(d: Disk, readable: bool)
    ensures match VerifyAs(d, readable).1
      case Nothing => RecoverAs(d, readable) == d
      case Lost => RecoverAs(d, readable) == Disk(None, None, None)
      case Opened =>
        RecoverAs(d, readable) == if d.backup.Some? && d.csum.Some? && d.csum.value == Csum(d.backup.value)
            then d.(orig := d.backup) else d
  {
    WipeClears(d);
    if d.backup.Some? {
      RestoreCopies(d, d.backup.value);
    }
  }

  lemma RecoverEffect(d: Disk)
    ensures match Verify(d).1
      case Nothing => Recover(d) == d
      case Lost => Recover(d) == Disk(None, None, None)
      case Opened =>
        Recover(d) == if d.backup.Some? && d.csum.Some? && d.csum.value == Csum(d.backup.value)
            then d.(orig := d.backup) else d
  {
    RecoverAsEffect(d, true);
  }

  /**
   Recovery does nothing if there is no helper file, or an empty checksum beside a backup. In all other cases it is a
   majority vote in which the original has a veto: it must be there.
   */
  lemma Vote(d: Disk, readable: bool)
    ensures VerifyAs(d, readable).1 ==
            if (d.backup.None? && d.csum.None?) || (d.backup.Some? && d.csum == Some([])) then Nothing
            else if d.orig.Some? && (exists v :: Majority(d, readable, v)) then Opened
            else Lost
    ensures VerifyAs(d, readable).1 == Opened ==>
              var r := RecoverAs(d, readable);
              && r.orig.Some? && r.backup == d.backup && r.csum == d.csum
              && (readable || r.orig != d.orig ==> Majority(d, readable, Csum(r.orig.value)))
    ensures VerifyAs(d, readable).1 == Lost ==> RecoverAs(d, readable) == Disk(None, None, None)
  {
    RecoverAsEffect(d, readable);
    if VerifyAs(d, readable).1 == Opened {
      var o, s := Seen(d, readable), if d.csum.Some? then d.csum.value else [];
      if d.backup.Some? && d.csum.Some? && d.csum.value == Csum(d.backup.value) {
        assert Voter(d, readable, s, Backup) && Voter(d, readable, s, Sum);
      } else if d.csum.Some? && d.csum.value == o {
        assert Voter(d, readable, o, Orig) && Voter(d, readable, o, Sum);
      } else {
        assert Voter(d, readable, o, Orig) && Voter(d, readable, o, Backup);
      }
      assert Majority(d, readable, o) || Majority(d, readable, s);
    }
  }

  /** Running a successful verification again changes nothing. */
  lemma VerifyIdempotent(d: Disk)
    requires Verify(d).1 != Lost
    ensures Verify(Recover(d)).1 == Verify(d).1 && Recover(Recover(d)) == Recover(d)
  {
    RecoverEffect(d);
    RecoverEffect(Recover(d));
  }

  /** Giving a resource up is final from the first removal on: where it is cut short, the next open finishes it. */
  lemma CrashedWipe(d: Disk, readable: bool, r: Disk)
    requires VerifyAs(d, readable).1 == Lost
    ensures Crashed(d, VerifyAs(d, readable).0, r) <==>
              r in {d, Disk(None, d.backup, d.csum), Disk(None, None, d.csum), Disk(None, None, None)}
    ensures Crashed(d, VerifyAs(d, readable).0, r) && r != d && d.orig.Some? ==>
              forall again: bool :: RecoverAs(r, again) == Disk(None, None, None)
  {
    var p1, p2 := [Remove(Backup), Remove(Sum)], [Remove(Sum)];
    assert WIPE[1..] == p1 && p1[1..] == p2 && p2[1..] == [];
    var d1 := Exec(d, Remove(Orig));
    var d2 := Exec(d1, Remove(Backup));
    var d3 := Exec(d2, Remove(Sum));
    assert Crashed(d2, p2, r) <==> r == d2 || r == d3;
    assert Crashed(d1, p1, r) <==> r == d1 || Crashed(d2, p2, r);
    assert Crashed(d, WIPE, r) <==> r == d || Crashed(d1, p1, r);
    RecoverAsEffect(r, true);
    RecoverAsEffect(r, false);
  }

  /** A good backup does not help when the original itself is gone: opening it for recovery does not create it. */
  lemma MissingOriginalLosesBackup(b: Bytes)
    requires b != []
    ensures var d := Disk(None, Some(b), Some(Csum(b)));
      Verify(d).1 == Lost && Recover(d) == Disk(None, None, None)
  {
    RecoverEffect(Disk(None, Some(b), Some(Csum(b))));
  }

  // ---------- crash safety ----------

  /** Every state from which recovery leads back to the content o. */
  ghost predicate Protected(o: Bytes, d: Disk) {
    && d.orig.Some? && d.backup.Some? && d.csum.Some?
    && (|| (d.csum.value == [] && d.orig.value == o)
        || (d.csum.value == Csum(o) && d.backup.value == o)
        || (d.csum.value == Csum(o) && d.orig.value == o && Csum(d.backup.value) != Csum(o)))
  }

  lemma ProtectedRecovers(o: Bytes, d: Disk)
    requires o != [] && Protected(o, d)
    ensures Verify(d).1 != Lost && Recover(d).orig == Some(o) && Protected(o, Recover(d))
  {
    RecoverEffect(d);
  }

  /** A recovery that is itself cut short leaves a state from which recovery still works. */
  lemma CrashedRecovery(o: Bytes, d: Disk, r: Disk)
    requires o != [] && Protected(o, d) && Crashed(d, Verify(d).0, r)
    ensures Protected(o, r)
  {
    var plan := Verify(d).0;
    if plan != [] {
      var copy := [WriteAt(Orig, 0, o)];
      assert plan == [Truncate(Orig), WriteAt(Orig, 0, o)] && plan[1..] == copy && copy[1..] == [];
      var d1 := Exec(d, Truncate(Orig));
      assert Protected(o, d1) && Protected(o, Exec(d1, copy[0]));
      assert r == d || Crashed(d1, copy, r);
    }
  }

  /** Any number of recoveries, each cut short by the next crash. */
  ghost predicate Crashes(d: Disk, chain: seq<Disk>, last: Disk)
    decreases |chain|
  {
    if chain == [] then d == last
    else Crashed(d, Verify(d).0, chain[0]) && Crashes(chain[0], chain[1..], last)
  }

  lemma {:induction false} CrashesKeep(o: Bytes, d: Disk, chain: seq<Disk>, last: Disk)
    requires o != [] && Protected(o, d) && Crashes(d, chain, last)
    ensures Protected(o, last)
    decreases |chain|
  {
    if chain != [] {
      CrashedRecovery(o, d, chain[0]);
      CrashesKeep(o, chain[0], chain[1..], last);
    }
  }

  ghost predicate NoPrefixCollision(o: Bytes) {
    forall k :: 0 <= k < |o| ==> Csum(o[..k]) != Csum(o)
  }

  ghost predicate NoStaleCollision(d: Disk, o: Bytes) {
    d.backup.Some? && d.backup.value != o ==> Csum(d.backup.value) != Csum(o)
  }

  ghost predicate OnlyOrig(writes: seq<Effect>) {
    forall i :: 0 <= i < |writes| ==> writes[i].WriteAt? && writes[i].f == Orig
  }

  /** After the backup is complete the application may write what it likes. */
  lemma {:induction false} WritesProtected(o: Bytes, d: Disk, writes: seq<Effect>, r: Disk)
    requires Protected(o, d) && d.csum.value == Csum(o) && d.backup.value == o
    requires OnlyOrig(writes) && Crashed(d, writes, r)
    ensures Protected(o, r) && r.csum.value == Csum(o) && r.backup.value == o
    decreases |writes|
  {
    if r != d && writes != [] && Crashed(Exec(d, writes[0]), writes[1..], r) {
      assert forall i :: 0 <= i < |writes[1..]| ==> writes[1..][i] == writes[i + 1];
      WritesProtected(o, Exec(d, writes[0]), writes[1..], r);
    }
  }

  /** While the copy is being made the backup holds some prefix of o. */
  lemma CopyProtected(o: Bytes, d: Disk, writes: seq<Effect>, r: Disk)
    requires o != [] && NoPrefixCollision(o)
    requires d.orig == Some(o) && d.backup == Some([]) && d.csum == Some(Csum(o))
    requires OnlyOrig(writes) && Crashed(d, [WriteAt(Backup, 0, o)] + writes, r)
    ensures Protected(o, r)
  {
    var plan := [WriteAt(Backup, 0, o)] + writes;
    assert plan[0] == WriteAt(Backup, 0, o) && plan[1..] == writes;
    assert Protected(o, d);
    if r == d {
    } else if t :| Torn(plan[0], t) && r == Exec(d, t) {
      assert t.data == o[..|t.data|];
      assert Splice([], 0, t.data) == t.data;
      if |t.data| == |o| {
        assert t.data == o;
      }
    } else {
      assert Splice([], 0, o) == o;
      WritesProtected(o, Exec(d, plan[0]), writes, r);
    }
  }

  /** The crash points of the backup's second half, whatever the checksum text v is. */
  lemma PostCrashes(d: Disk, v: Bytes, o: Bytes, writes: seq<Effect>, r: Disk)
    requires d.csum == Some([])
    requires Crashed(d, [WriteAt(Sum, 0, v), Truncate(Backup), WriteAt(Backup, 0, o)] + writes, r)
    ensures var d1 := d.(csum := Some(v));
      r == d || r == d1 || Crashed(d1.(backup := Some([])), [WriteAt(Backup, 0, o)] + writes, r)
  {
    var plan := [WriteAt(Sum, 0, v), Truncate(Backup), WriteAt(Backup, 0, o)] + writes;
    var rest1 := [Truncate(Backup), WriteAt(Backup, 0, o)] + writes;
    var rest2 := [WriteAt(Backup, 0, o)] + writes;
    assert plan[0] == WriteAt(Sum, 0, v) && plan[1..] == rest1;
    assert rest1[0] == Truncate(Backup) && rest1[1..] == rest2;
    assert Splice([], 0, v) == v;
    var d1 := Exec(d, plan[0]);
    if r != d && r != d1 {
      assert Crashed(d1, rest1, r);
      assert Crashed(Exec(d1, Truncate(Backup)), rest2, r);
    }
  }

  /** A crash anywhere between the truncation of the checksum file and the end of the session. */
  lemma SessionProtected(o: Bytes, d: Disk, writes: seq<Effect>, r: Disk)
    requires o != [] && NoPrefixCollision(o) && NoStaleCollision(d, o)
    requires d.orig == Some(o) && d.backup.Some? && d.csum == Some([])
    requires OnlyOrig(writes) && Crashed(d, BackupPost(o) + writes, r)
    ensures Protected(o, r)
  {
    PostCrashes(d, Csum(o), o, writes, r);
    var d1 := d.(csum := Some(Csum(o)));
    if r != d && r != d1 {
      CopyProtected(o, d1.(backup := Some([])), writes, r);
    }
  }

  lemma PreTruncates(d: Disk)
    ensures ExecAll(d, BackupPre(d)) == d.(backup := if d.backup.None? then Some([]) else d.backup, csum := Some([]))
  {
    if d.backup.None? {
      assert BackupPre(d)[1..] == [Truncate(Sum)];
    } else {
      assert BackupPre(d) == [Truncate(Sum)];
    }
    assert [Truncate(Sum)][1..] == [];
  }

  /**
   Crash safety. A session starts with content o. It crashes anywhere after the checksum file was truncated, before
   close removes the backup, whatever it had written by then. Recoveries may crash too, any number of times; the first
   one that completes leaves exactly o.
   */
  lemma CrashSafety(d: Disk, o: Bytes, writes: seq<Effect>, r: Disk, chain: seq<Disk>, last: Disk)
    requires d.orig == Some(o) && o != [] && NoPrefixCollision(o) && NoStaleCollision(d, o) && OnlyOrig(writes)
    requires Crashed(ExecAll(d, BackupPre(d)), BackupPost(o) + writes, r)
    requires Crashes(r, chain, last)
    ensures Recover(last).orig == Some(o) && Verify(last).1 != Lost
  {
    PreTruncates(d);
    var d1 := ExecAll(d, BackupPre(d));
    SessionProtected(o, d1, writes, r);
    CrashesKeep(o, r, chain, last);
    ProtectedRecovers(o, last);
  }

  // ---------- the conditions are needed ----------

  /** The second half of the backup can leave any prefix p of o in the backup beside the finished checksum v. */
  lemma CopyCrash(d: Disk, v: Bytes, o: Bytes, p: Bytes)
    requires d.csum == Some([]) && p <= o
    ensures Crashed(d, [WriteAt(Sum, 0, v), Truncate(Backup), WriteAt(Backup, 0, o)],
        d.(csum := Some(v), backup := Some(p)))
  {
    var p0, p1, p2 := [WriteAt(Sum, 0, v), Truncate(Backup), WriteAt(Backup, 0, o)],
        [Truncate(Backup), WriteAt(Backup, 0, o)], [WriteAt(Backup, 0, o)];
    assert p0[1..] == p1 && p1[1..] == p2;
    assert Splice([], 0, v) == v && Splice([], 0, p) == p;
    var d1 := Exec(d, p0[0]);
    var d2 := Exec(d1, p1[0]);
    var t := WriteAt(Backup, 0, p);
    var r := Exec(d2, t);
    assert Torn(p2[0], t) && Crashed(d2, p2, r);
    assert Crashed(d1, p1, r) && Crashed(d, p0, r);
  }

  /** A prefix with the checksum of the whole: a crash in the copy leaves it as a convincing backup. */
  lemma PrefixCollisionLoses(d: Disk, o: Bytes, k: nat)
    requires d.orig == Some(o) && k < |o| && Csum(o[..k]) == Csum(o)
    ensures exists r ::
              Crashed(ExecAll(d, BackupPre(d)), BackupPost(o), r) && Recover(r).orig == Some(o[..k]) != Some(o)
  {
    PreTruncates(d);
    var d1 := ExecAll(d, BackupPre(d));
    CopyCrash(d1, Csum(o), o, o[..k]);
    var r := d1.(csum := Some(Csum(o)), backup := Some(o[..k]));
    RecoverEffect(r);
    assert Crashed(d1, BackupPost(o), r);
  }

  /** An old backup with the checksum of the new content is restored in its place. */
  lemma StaleCollisionLoses(d: Disk, o: Bytes)
    requires d.orig == Some(o) && o != [] && d.backup.Some? && d.backup.value != o && Csum(d.backup.value) == Csum(o)
    ensures exists r :: Crashed(ExecAll(d, BackupPre(d)), BackupPost(o), r) && Recover(r).orig == d.backup != Some(o)
  {
    PreTruncates(d);
    var d1 := ExecAll(d, BackupPre(d));
    assert Splice([], 0, Csum(o)) == Csum(o);
    var r := Exec(d1, BackupPost(o)[0]);
    assert Crashed(r, BackupPost(o)[1..], r) && Crashed(d1, BackupPost(o), r);
    RecoverEffect(r);
  }

  /** The two collision conditions are exactly what crash safety of the backup phase needs. */
  lemma CrashSafetyExactly(d: Disk, o: Bytes)
    requires d.orig == Some(o) && o != []
    ensures (forall r :: Crashed(ExecAll(d, BackupPre(d)), BackupPost(o), r) ==> Recover(r).orig == Some(o))
       <==> NoPrefixCollision(o) && NoStaleCollision(d, o)
  {
    var d1 := ExecAll(d, BackupPre(d));
    if NoPrefixCollision(o) && NoStaleCollision(d, o) {
      forall r | Crashed(d1, BackupPost(o), r) ensures Recover(r).orig == Some(o) {
        assert BackupPost(o) + [] == BackupPost(o);
        CrashSafety(d, o, [], r, [], r);
      }
    } else if !NoPrefixCollision(o) {
      var k :| 0 <= k < |o| && Csum(o[..k]) == Csum(o);
      PrefixCollisionLoses(d, o, k);
    } else {
      StaleCollisionLoses(d, o);
    }
  }

  /** The guard of the checksum function makes such prefixes easy to find: a file of zeros has them. */
  lemma ZerosAreNotSafe(n: nat)
    requires n >= 2
    ensures !NoPrefixCollision(Zeros(n))
  {
    ZeroFilesCollide(1, n);
    assert Zeros(n)[..1] == Zeros(1);
  }

  /** The checksum must go out whole: half of it, beside the still empty backup, outvotes nobody and all is lost. */
  lemma TornChecksumLoses(o: Bytes, s: Bytes)
    requires o != [] && s != [] && s != Csum(o)
    ensures Recover(Disk(Some(o), Some([]), Some(s))).orig == None
  {
    RecoverEffect(Disk(Some(o), Some([]), Some(s)));
  }

  /**
   The first excluded window: the empty backup has been created and the checksum file not yet opened. Content that
   the last verification accepted is lost exactly when there is no checksum file to speak for it.
   */
  lemma EmptyBackupWindow(d: Disk, o: Bytes)
    requires d.orig == Some(o) && d.backup.None? && (d.csum.Some? ==> d.csum.value == Csum(o))
    ensures Crashed(d, BackupPre(d), Exec(d, Truncate(Backup)))
    ensures Recover(Exec(d, Truncate(Backup))).orig == None <==> d.csum.None? && o != []
  {
    assert BackupPre(d)[0] == Truncate(Backup);
    var r := Exec(d, Truncate(Backup));
    assert Crashed(r, BackupPre(d)[1..], r);
    RecoverEffect(r);
  }

  /**
   The second excluded window: close has removed the backup and not yet the checksum, which still describes the
   content before the session. What was written survives exactly when that checksum happens to fit.
   */
  lemma CloseWindow(o: Bytes, x: Bytes)
    ensures var d := Disk(Some(x), Some(o), Some(Csum(o))); var r := Exec(d, Remove(Backup));
      && Crashed(d, CLOSE, r)
      && Recover(r).orig == (if Csum(x) == Csum(o) then Some(x) else None)
      && (o != [] ==> Recover(d).orig == Some(o))
      && Recover(ExecAll(d, CLOSE)).orig == Some(x)
  {
    var d := Disk(Some(x), Some(o), Some(Csum(o)));
    var r := Exec(d, Remove(Backup));
    assert CLOSE[1..] == [Remove(Sum)] && [Remove(Sum)][1..] == [];
    assert Crashed(r, CLOSE[1..], r);
    var e := Exec(r, Remove(Sum));
    assert ExecAll(d, CLOSE) == ExecAll(r, [Remove(Sum)]) == ExecAll(e, []) == e;
    RecoverEffect(d);
    RecoverEffect(r);
    RecoverEffect(e);
  }

  /** An empty original has an empty checksum, which recovery ignores: whatever a crash left in it stays. */
  lemma EmptyOriginalUnprotected(x: Bytes, b: Bytes)
    ensures Recover(Disk(Some(x), Some(b), Some(Csum([])))).orig == Some(x)
  {
    RecoverEffect(Disk(Some(x), Some(b), Some(Csum([]))));
  }

  // ---------- write-only resources ----------

  /** What the first write of a write-only descriptor leaves of the backup: both helper files, and nothing in them. */
  const UNREAD_POST: seq<Effect> := [WriteAt(Sum, 0, []), Truncate(Backup)]

  /** The second half of the backup through either kind of descriptor. */
  function PostAs(o: Bytes, readable: bool): seq<Effect> {
    if readable then BackupPost(o) else UNREAD_POST
  }

  /** The disk once a backup has been taken. */
  function SavedAs(d: Disk, readable: bool): Disk
    requires d.orig.Some?
  {
    if readable then Disk(d.orig, d.orig, Some(Csum(d.orig.value))) else Disk(d.orig, Some([]), Some([]))
  }

  /** An open for writing only goes by the helper files alone; the content of the original counts for nothing. */
  lemma WriteOnlyVote(d: Disk)
    ensures var (outcome, r) := (VerifyAs(d, false).1, RecoverAs(d, false));
      match (d.backup, d.csum)
      case (None, None) => outcome == Nothing && r == d
      case (Some(b), Some(c)) =>
        if c == [] then outcome == Nothing && r == d
        else if d.orig.Some? && c == Csum(b) then outcome == Opened && r == d.(orig := Some(b))
        else if d.orig.Some? && b == [] then outcome == Opened && r == d
        else outcome == Lost && r == Disk(None, None, None)
      case (None, Some(c)) =>
        if d.orig.Some? && c == [] then outcome == Opened && r == d else outcome == Lost && r == Disk(None, None, None)
      case (Some(b), None) =>
        if d.orig.Some? && b == [] then outcome == Opened && r == d else outcome == Lost && r == Disk(None, None, None)
  {
    RecoverAsEffect(d, false);
  }

  /** A resource with two empty helper files: recovery leaves it alone, whatever it holds. */
  ghost predicate Abandoned(d: Disk) {
    d.orig.Some? && d.backup == Some([]) && d.csum == Some([])
  }

  lemma AbandonedStays(d: Disk, readable: bool)
    requires Abandoned(d)
    ensures VerifyAs(d, readable) == ([], Nothing)
  {
  }

  lemma {:induction false} AbandonedWrites(d: Disk, writes: seq<Effect>, r: Disk)
    requires Abandoned(d) && OnlyOrig(writes) && Crashed(d, writes, r)
    ensures Abandoned(r)
    decreases |writes|
  {
    if r != d && writes != [] && Crashed(Exec(d, writes[0]), writes[1..], r) {
      assert forall i :: 0 <= i < |writes[1..]| ==> writes[1..][i] == writes[i + 1];
      AbandonedWrites(Exec(d, writes[0]), writes[1..], r);
    }
  }
}
