/**
 * Backup rotation of `AutoSaveStrategy`: the list of existing backups
 * (`GetBackupSaveList`), the eviction of the oldest one when the maximum
 * is reached, the timestamped name of the new backup and the copy
 * (`BackupSave`).
 *
 * The file system is a value: whether the backup root exists and the
 * entries directly inside it. The outcomes of `remove_all`, `localtime_s`
 * and `copy` are inputs, so the model states which entry is chosen, which
 * name is formed and what the directory holds afterwards.
 */
module BackupRotation {
  import opened Wrappers
  import opened Decimal

  /** A directory entry of the backup root: its full path, whether it is a directory, its last write time. */
  datatype Entry = Entry(path: string, isDirectory: bool, lastWriteTime: int)

  /** The backup root as `std::filesystem` sees it. */
  datatype Disk = Disk(rootExists: bool, entries: seq<Entry>)

  /** The broken-down local time that `localtime_s` fills in (the fields of C's `struct tm`). */
  datatype Tm = Tm(yearsSince1900: int, monthsSinceJanuary: int, dayOfMonth: int,
                   hours: int, minutes: int, seconds: int)

  /**
   * The ranges `localtime_s` produces; every year it can return has four
   * digits. `seconds` may be 60, a leap second.
   */
  predicate ValidTm(tm: Tm)
  {
    && 1000 <= 1900 + tm.yearsSince1900 <= 9999
    && 0 <= tm.monthsSinceJanuary <= 11
    && 1 <= tm.dayOfMonth <= 31
    && 0 <= tm.hours <= 23
    && 0 <= tm.minutes <= 59
    && 0 <= tm.seconds <= 60
  }

  type LocalTime = tm: Tm | ValidTm(tm) witness Tm(121, 0, 1, 0, 0, 0)

  /**
   * What the file system and the C library do during one `BackupSave`:
   * whether `remove_all` succeeds, the local time `localtime_s` yields
   * (`None` when it fails), whether the recursive `copy` succeeds, and the
   * last write time the copied directory gets.
   */
  datatype FsOutcomes = FsOutcomes(removeSucceeds: bool, localTime: Option<LocalTime>,
                                   copySucceeds: bool, copiedAt: int)

  /**
   * The end of `BackupSave`: it returns true or false, or the exception
   * `std::out_of_range` thrown by `backupSaveList.at(0)` on an empty list
   * escapes it.
   */
  datatype BackupResult = Succeeded | Failed | OutOfRange

  /** `s` contains `pattern` at some position (`find(pattern) != npos`). */
  predicate Contains(s: string, pattern: string)
    decreases |s|
  {
    pattern <= s || (s != [] && Contains(s[1..], pattern))
  }

  lemma {:induction false} ContainsInSuffix(x: string, y: string, pattern: string)
    requires Contains(y, pattern)
    ensures Contains(x + y, pattern)
    decreases |x|
  {
    if x == [] {
      assert x + y == y;
    } else {
      assert (x + y)[1..] == x[1..] + y;
      ContainsInSuffix(x[1..], y, pattern);
    }
  }

  const BackupMarker: string := ".Backup."

  /** An entry that `GetBackupSaveList` keeps: a directory whose path contains ".Backup.". */
  predicate IsBackup(e: Entry)
  {
    Contains(e.path, BackupMarker) && e.isDirectory
  }

  /** The backups among `es`, in directory order. */
  function Backups(es: seq<Entry>): (r: seq<Entry>)
    ensures |r| <= |es|
  {
    if es == [] then []
    else
      var last := es[|es| - 1];
      Backups(es[..|es| - 1]) + (if IsBackup(last) then [last] else [])
  }

  /** The backups listed are exactly the entries that qualify. */
  lemma {:induction false} BackupsMembers(es: seq<Entry>)
    ensures forall e :: e in Backups(es) <==> e in es && IsBackup(e)
  {
    if es != [] {
      var init := es[..|es| - 1];
      BackupsMembers(init);
      assert es == init + [es[|es| - 1]];
    }
  }

  /** Unfolds `Backups` once at the end of the list. */
  lemma BackupsAppend(es: seq<Entry>, e: Entry)
    ensures Backups(es + [e]) == Backups(es) + (if IsBackup(e) then [e] else [])
  {
    assert (es + [e])[..|es|] == es;
  }

  /** The filter keeps directory order: the backups of two consecutive runs of entries are concatenated. */
  lemma {:induction false} BackupsConcat(a: seq<Entry>, b: seq<Entry>)
    ensures Backups(a + b) == Backups(a) + Backups(b)
  {
    if b == [] {
      assert a + b == a;
    } else {
      var init := b[..|b| - 1];
      var last := b[|b| - 1];
      assert a + b == (a + init) + [last];
      assert b == init + [last];
      BackupsConcat(a, init);
      BackupsAppend(a + init, last);
      BackupsAppend(init, last);
    }
  }

  /** Oldest first: last write times never decrease along `s`. */
  predicate OldestFirst(s: seq<Entry>)
  {
    forall i, j :: 0 <= i < j < |s| ==> s[i].lastWriteTime <= s[j].lastWriteTime
  }

  /** `x` inserted into the oldest-first sequence `s` so that it stays oldest first. */
  function InsertByWriteTime(s: seq<Entry>, x: Entry): (r: seq<Entry>)
    requires OldestFirst(s)
    ensures OldestFirst(r)
    ensures multiset(r) == multiset(s) + multiset{x}
  {
    if s == [] then [x]
    else if x.lastWriteTime <= s[0].lastWriteTime then
      OldestFirstCons(x, s);
      [x] + s
    else
      var tail := InsertByWriteTime(s[1..], x);
      InsertAfterHead(s, x, tail);
      [s[0]] + tail
  }

  /** The step of `InsertByWriteTime` that keeps the head of `s` and inserts into its tail. */
  lemma InsertAfterHead(s: seq<Entry>, x: Entry, tail: seq<Entry>)
    requires OldestFirst(s) && s != [] && s[0].lastWriteTime < x.lastWriteTime
    requires OldestFirst(tail) && multiset(tail) == multiset(s[1..]) + multiset{x}
    ensures OldestFirst([s[0]] + tail)
    ensures multiset([s[0]] + tail) == multiset(s) + multiset{x}
  {
    assert s == [s[0]] + s[1..];
    forall k | 0 <= k < |tail|
      ensures s[0].lastWriteTime <= tail[k].lastWriteTime
    {
      assert tail[k] in multiset(tail);
      assert tail[k] == x || tail[k] in s[1..];
    }
    OldestFirstCons(s[0], tail);
  }

  /** An entry no newer than any of an oldest-first sequence can go in front of it. */
  lemma OldestFirstCons(h: Entry, t: seq<Entry>)
    requires OldestFirst(t)
    requires t == [] || h.lastWriteTime <= t[0].lastWriteTime
    ensures OldestFirst([h] + t)
  {
    var r := [h] + t;
    forall i, j | 0 <= i < j < |r|
      ensures r[i].lastWriteTime <= r[j].lastWriteTime
    {
      assert r[j] == t[j - 1];
      if 0 < i { assert r[i] == t[i - 1]; }
    }
  }

  /**
   * The `std::sort` of `GetBackupSaveList` with the comparator
   * `last_write_time(a) < last_write_time(b)`: the result is oldest first
   * and a permutation of the input. Entries with equal times may come out
   * in any order, as with `std::sort`.
   */
  method SortOldestFirst(s: seq<Entry>) returns (r: seq<Entry>)
    ensures OldestFirst(r)
    ensures multiset(r) == multiset(s)
  {
    r := [];
    for i := 0 to |s|
      invariant OldestFirst(r)
      invariant multiset(r) == multiset(s[..i])
    {
      assert s[..i + 1] == s[..i] + [s[i]];
      r := InsertByWriteTime(r, s[i]);
    }
    assert s[..|s|] == s;
  }

  /**
   * `GetBackupSaveList`: the directories of the backup root whose path
   * contains ".Backup.", oldest first.
   */
  method GetBackupSaveList(entries: seq<Entry>) returns (list: seq<Entry>)
    ensures multiset(list) == multiset(Backups(entries))
    ensures OldestFirst(list)
  {
    var found: seq<Entry> := [];
    for i := 0 to |entries|
      invariant found == Backups(entries[..i])
    {
      assert entries[..i + 1] == entries[..i] + [entries[i]];
      BackupsAppend(entries[..i], entries[i]);
      var entry := entries[i];
      if !Contains(entry.path, BackupMarker) || !entry.isDirectory {
        continue;
      }
      found := found + [entry];
    }
    assert entries[..|entries|] == entries;
    list := SortOldestFirst(found);
  }

  /** `e` is a backup with the least last write time among the backups of `es`. */
  ghost predicate IsOldestBackup(e: Entry, es: seq<Entry>)
  {
    e in Backups(es) && forall f :: f in Backups(es) ==> e.lastWriteTime <= f.lastWriteTime
  }

  /** The entries that remain once `remove_all(p)` has deleted the entry at path `p`. */
  function RemovePath(es: seq<Entry>, p: string): (r: seq<Entry>)
    ensures |r| <= |es|
  {
    if es == [] then []
    else
      var last := es[|es| - 1];
      RemovePath(es[..|es| - 1], p) + (if last.path != p then [last] else [])
  }

  /** `remove_all(p)` deletes the entry at `p` and no other. */
  lemma {:induction false} RemovePathMembers(es: seq<Entry>, p: string)
    ensures forall e :: e in RemovePath(es, p) <==> e in es && e.path != p
  {
    if es != [] {
      var init := es[..|es| - 1];
      RemovePathMembers(init, p);
      assert es == init + [es[|es| - 1]];
    }
  }

  /** Unfolds `RemovePath` once at the end of the list. */
  lemma RemovePathAppend(es: seq<Entry>, e: Entry, p: string)
    ensures RemovePath(es + [e], p) == RemovePath(es, p) + (if e.path != p then [e] else [])
  {
    assert (es + [e])[..|es|] == es;
  }

  /** Removal keeps the order of what remains: it acts on two consecutive runs of entries separately. */
  lemma {:induction false} RemovePathConcat(a: seq<Entry>, b: seq<Entry>, p: string)
    ensures RemovePath(a + b, p) == RemovePath(a, p) + RemovePath(b, p)
  {
    if b == [] {
      assert a + b == a;
    } else {
      var init := b[..|b| - 1];
      var last := b[|b| - 1];
      assert a + b == (a + init) + [last];
      assert b == init + [last];
      RemovePathConcat(a, init, p);
      RemovePathAppend(a + init, last, p);
      RemovePathAppend(init, last, p);
    }
  }

  /** The entries once the recursive copy has made a directory at path `p`, written at time `t`. */
  function AddDirectory(es: seq<Entry>, p: string, t: int): (r: seq<Entry>)
    ensures Entry(p, true, t) in r
  {
    RemovePath(es, p) + [Entry(p, true, t)]
  }

  /** The copy leaves exactly the new directory and every entry at another path. */
  lemma AddDirectoryMembers(es: seq<Entry>, p: string, t: int)
    ensures forall e :: e in AddDirectory(es, p, t) <==> e == Entry(p, true, t) || (e in es && e.path != p)
  {
    RemovePathMembers(es, p);
  }

  const BackupNamePrefix: string := "\\Game0.Backup."

  /** Three digit fields separated by `sep`: `a` then two fields of two digits (`%Y-%m-%d`, `%H_%M_%S`). */
  function Fields(a: string, sep: char, b: string, c: string): string
  {
    a + [sep] + b + [sep] + c
  }

  /** `strftime`'s "%F" (that is "%Y-%m-%d") of `tm`. */
  function DatePart(tm: LocalTime): (s: string)
    ensures |s| == 10
  {
    Fields(FourDigits(1900 + tm.yearsSince1900), '-', TwoDigits(tm.monthsSinceJanuary + 1),
           TwoDigits(tm.dayOfMonth))
  }

  /** `strftime`'s "%H_%M_%S" of `tm`. */
  function ClockPart(tm: LocalTime): (s: string)
    ensures |s| == 8
  {
    Fields(TwoDigits(tm.hours), '_', TwoDigits(tm.minutes), TwoDigits(tm.seconds))
  }

  /** The date and time part of a backup's name: "%F.%H_%M_%S". */
  function Timestamp(tm: LocalTime): (s: string)
    ensures |s| == 19
  {
    DatePart(tm) + "." + ClockPart(tm)
  }

  /** The text appended to the backup root for a new backup: "\Game0.Backup.<YYYY-MM-DD>.<HH>_<MM>_<SS>". */
  function BackupDirectoryName(tm: LocalTime): (s: string)
    ensures |s| == |BackupNamePrefix| + 19
    ensures s[..|BackupNamePrefix|] == BackupNamePrefix
  {
    BackupNamePrefix + Timestamp(tm)
  }

  /** Reads three digit fields, the first `w` digits wide, back from the text `Fields` writes. */
  function ParseFields(s: string, w: nat, sep: char): Option<(nat, nat, nat)>
  {
    if |s| == w + 6 && s[w] == sep && s[w + 3] == sep
       && AllDigits(s[..w]) && AllDigits(s[w + 1..w + 3]) && AllDigits(s[w + 4..])
    then Some((DigitsValue(s[..w]), DigitsValue(s[w + 1..w + 3]), DigitsValue(s[w + 4..])))
    else None
  }

  lemma {:induction false} FieldsRoundTrip(a: string, sep: char, b: string, c: string)
    requires AllDigits(a) && AllDigits(b) && AllDigits(c) && |b| == 2 && |c| == 2
    ensures ParseFields(Fields(a, sep, b, c), |a|, sep)
            == Some((DigitsValue(a), DigitsValue(b), DigitsValue(c)))
  {
    var s := Fields(a, sep, b, c);
    assert s[..|a|] == a;
    assert s[|a| + 1..|a| + 3] == b;
    assert s[|a| + 4..] == c;
  }

  /** Reads a timestamp back into the local time it was formatted from. */
  function ParseTimestamp(s: string): Option<Tm>
  {
    if |s| != 19 || s[10] != '.' then None
    else match (ParseFields(s[..10], 4, '-'), ParseFields(s[11..], 2, '_'))
      case (Some((y, mo, d)), Some((h, mi, se))) => Some(Tm(y as int - 1900, mo as int - 1, d, h, mi, se))
      case _ => None
  }

  /** The date part reads back as the year, month and day it was formatted from. */
  lemma DatePartRoundTrip(tm: LocalTime)
    ensures ParseFields(DatePart(tm), 4, '-')
            == Some((1900 + tm.yearsSince1900, tm.monthsSinceJanuary + 1, tm.dayOfMonth))
  {
    var y, m, d := FourDigits(1900 + tm.yearsSince1900), TwoDigits(tm.monthsSinceJanuary + 1), TwoDigits(tm.dayOfMonth);
    assert |y| == 4 && DigitsValue(y) == 1900 + tm.yearsSince1900;
    FieldsRoundTrip(y, '-', m, d);
  }

  /** The clock part reads back as the hours, minutes and seconds it was formatted from. */
  lemma ClockPartRoundTrip(tm: LocalTime)
    ensures ParseFields(ClockPart(tm), 2, '_') == Some((tm.hours, tm.minutes, tm.seconds))
  {
    FieldsRoundTrip(TwoDigits(tm.hours), '_', TwoDigits(tm.minutes), TwoDigits(tm.seconds));
  }

  /** The timestamp determines the local time it was made from. */
  lemma {:induction false} TimestampRoundTrip(tm: LocalTime)
    ensures ParseTimestamp(Timestamp(tm)) == Some(tm)
  {
    var s := Timestamp(tm);
    assert s[10] == '.';
    assert s[..10] == DatePart(tm);
    assert s[11..] == ClockPart(tm);
    DatePartRoundTrip(tm);
    ClockPartRoundTrip(tm);
  }

  /** Backups made in different seconds get different names. */
  lemma {:induction false} BackupDirectoryNameInjective(a: LocalTime, b: LocalTime)
    requires BackupDirectoryName(a) == BackupDirectoryName(b)
    ensures a == b
  {
    var n := |BackupNamePrefix|;
    assert Timestamp(a) == BackupDirectoryName(a)[n..];
    assert Timestamp(b) == BackupDirectoryName(b)[n..];
    TimestampRoundTrip(a);
    TimestampRoundTrip(b);
  }

  /** Every backup `BackupSave` creates is one that later calls list and rotate. */
  lemma {:induction false} NewBackupIsListed(root: string, tm: LocalTime, t: int)
    ensures IsBackup(Entry(root + BackupDirectoryName(tm), true, t))
  {
    var name := BackupDirectoryName(tm);
    var tail := name[6..];
    assert BackupMarker <= tail;
    assert Contains(tail, BackupMarker);
    assert name == name[..6] + tail;
    ContainsInSuffix(name[..6], tail, BackupMarker);
    ContainsInSuffix(root, name, BackupMarker);
    assert root + BackupDirectoryName(tm) == root + name;
  }

  /** The new backup's path: the backup root followed by the timestamped name. */
  function NewBackupPath(root: string, tm: LocalTime): string
  {
    root + BackupDirectoryName(tm)
  }

  /**
   * The part of `BackupSave` after the rotation: `localtime_s`, the name,
   * and the recursive copy of the save folder into the new directory.
   * Either failure returns false with `es` left as it is.
   */
  function FinishBackup(root: string, es: seq<Entry>, fs: FsOutcomes): (r: (BackupResult, Disk))
    ensures r.0 != OutOfRange && r.1.rootExists
    ensures r.0 == Succeeded <==> fs.localTime.Some? && fs.copySucceeds
    ensures r.0 == Failed ==> r.1.entries == es
  {
    match fs.localTime
    case None => (Failed, Disk(true, es))
    case Some(tm) =>
      if !fs.copySucceeds then (Failed, Disk(true, es))
      else (Succeeded, Disk(true, AddDirectory(es, NewBackupPath(root, tm), fs.copiedAt)))
  }

  /** The success branch of `FinishBackup`, for use in scenarios. */
  lemma FinishBackupCopies(root: string, es: seq<Entry>, fs: FsOutcomes)
    requires fs.localTime.Some? && fs.copySucceeds
    ensures FinishBackup(root, es, fs)
            == (Succeeded, Disk(true, AddDirectory(es, NewBackupPath(root, fs.localTime.value), fs.copiedAt)))
  {
  }

  /**
   * What one `BackupSave` does with the backup root `root` and the
   * maximum `maxBackups`:
   * - a missing root: true, nothing touched;
   * - fewer backups than the maximum: no eviction, then the copy;
   * - at least the maximum but none at all (a maximum of 0):
   *   `at(0)` throws and nothing is touched;
   * - otherwise an oldest backup is chosen; a failed removal returns false
   *   before any copy, a successful one deletes exactly that entry and the
   *   copy follows.
   */
  ghost predicate BackupSaveSpec(root: string, maxBackups: nat, disk: Disk, fs: FsOutcomes,
                                 result: BackupResult, after: Disk)
  {
    if !disk.rootExists then result == Succeeded && after == disk
    else
      var backups := Backups(disk.entries);
      if |backups| < maxBackups then (result, after) == FinishBackup(root, disk.entries, fs)
      else if |backups| == 0 then result == OutOfRange && after == disk
      else (exists oldest :: IsOldestBackup(oldest, disk.entries) &&
              (if !fs.removeSucceeds then result == Failed && after == disk
               else (result, after) == FinishBackup(root, RemovePath(disk.entries, oldest.path), fs)))
  }

  /** `BackupSave`: rotate the backups of `disk`, then copy the save into a new timestamped backup. */
  method BackupSave(root: string, maxBackups: nat, disk: Disk, fs: FsOutcomes)
    returns (result: BackupResult, after: Disk)
    ensures BackupSaveSpec(root, maxBackups, disk, fs, result, after)
  {
    if !disk.rootExists {
      return Succeeded, disk;
    }

    var backupSaveList := GetBackupSaveList(disk.entries);
    assert |backupSaveList| == |Backups(disk.entries)| by {
      assert |multiset(backupSaveList)| == |multiset(Backups(disk.entries))|;
    }
    var entries := disk.entries;

    if |backupSaveList| >= maxBackups {
      if |backupSaveList| == 0 {
        return OutOfRange, disk;
      }
      var oldestBackupSave := backupSaveList[0];
      assert IsOldestBackup(oldestBackupSave, disk.entries) by {
        assert oldestBackupSave in multiset(Backups(disk.entries));
        forall f | f in Backups(disk.entries)
          ensures oldestBackupSave.lastWriteTime <= f.lastWriteTime
        {
          assert f in multiset(backupSaveList);
          var j :| 0 <= j < |backupSaveList| && backupSaveList[j] == f;
        }
      }
      if !fs.removeSucceeds {
        return Failed, disk;
      }
      entries := RemovePath(entries, oldestBackupSave.path);
    }

    var r := FinishBackup(root, entries, fs);
    result, after := r.0, r.1;
  }

  /**
   * A successful `BackupSave` on an existing root leaves the new backup on
   * the disk, where the next `GetBackupSaveList` finds it.
   */
  lemma BackupSaveListsNewBackup(root: string, maxBackups: nat, disk: Disk, fs: FsOutcomes,
                                 result: BackupResult, after: Disk)
    requires disk.rootExists && BackupSaveSpec(root, maxBackups, disk, fs, result, after)
    requires result == Succeeded
    ensures fs.localTime.Some? && fs.copySucceeds
    ensures Entry(NewBackupPath(root, fs.localTime.value), true, fs.copiedAt) in Backups(after.entries)
  {
    var backups := Backups(disk.entries);
    var es: seq<Entry>;
    if |backups| < maxBackups {
      es := disk.entries;
    } else {
      var oldest :| IsOldestBackup(oldest, disk.entries) &&
                    (if !fs.removeSucceeds then result == Failed && after == disk
                     else (result, after) == FinishBackup(root, RemovePath(disk.entries, oldest.path), fs));
      es := RemovePath(disk.entries, oldest.path);
    }
    assert (result, after) == FinishBackup(root, es, fs);
    var tm := fs.localTime.value;
    var e := Entry(NewBackupPath(root, tm), true, fs.copiedAt);
    NewBackupIsListed(root, tm, fs.copiedAt);
    BackupsMembers(after.entries);
  }

  /** No two entries of a directory share a path. */
  predicate DistinctPaths(es: seq<Entry>)
  {
    forall i, j :: 0 <= i < j < |es| ==> es[i].path != es[j].path
  }

  lemma {:induction false} RemoveAbsentPath(es: seq<Entry>, p: string)
    requires forall e :: e in es ==> e.path != p
    ensures RemovePath(es, p) == es
  {
    if es != [] {
      var init := es[..|es| - 1];
      var last := es[|es| - 1];
      assert es == init + [last];
      RemoveAbsentPath(init, p);
      RemovePathAppend(init, last, p);
    }
  }

  lemma {:induction false} RemovePathNoMoreBackups(es: seq<Entry>, p: string)
    ensures |Backups(RemovePath(es, p))| <= |Backups(es)|
  {
    if es != [] {
      var init := es[..|es| - 1];
      var last := es[|es| - 1];
      assert es == init + [last];
      RemovePathNoMoreBackups(init, p);
      BackupsAppend(init, last);
      RemovePathAppend(init, last, p);
      assert |Backups(init)| <= |Backups(es)|;
      if last.path != p {
        BackupsAppend(RemovePath(init, p), last);
      } else {
        assert RemovePath(es, p) == RemovePath(init, p);
      }
    }
  }

  /** Deleting one backup of a directory takes exactly one away from the backups listed. */
  lemma {:induction false} RemoveBackupCount(es: seq<Entry>, e: Entry)
    requires DistinctPaths(es) && e in es && IsBackup(e)
    ensures |Backups(RemovePath(es, e.path))| == |Backups(es)| - 1
  {
    var init := es[..|es| - 1];
    var last := es[|es| - 1];
    assert es == init + [last];
    BackupsAppend(init, last);
    RemovePathAppend(init, last, e.path);
    if last == e {
      forall f | f in init ensures f.path != e.path {
        var i :| 0 <= i < |init| && init[i] == f;
        assert es[i] == f;
      }
      RemoveAbsentPath(init, e.path);
      assert RemovePath(es, e.path) == init;
      assert Backups(es) == Backups(init) + [e];
    } else {
      var i :| 0 <= i < |es| && es[i] == e;
      assert i < |es| - 1;
      assert last.path != e.path;
      assert init[i] == e;
      assert DistinctPaths(init) by {
        forall a, b | 0 <= a < b < |init| ensures init[a].path != init[b].path {
          assert init[a] == es[a] && init[b] == es[b];
        }
      }
      RemoveBackupCount(init, e);
      BackupsAppend(RemovePath(init, e.path), last);
    }
  }

  /** A copy adds at most one backup. */
  lemma AddDirectoryCount(es: seq<Entry>, p: string, t: int)
    ensures |Backups(AddDirectory(es, p, t))| <= |Backups(es)| + 1
    ensures (forall e :: e in es ==> e.path != p) && IsBackup(Entry(p, true, t))
            ==> |Backups(AddDirectory(es, p, t))| == |Backups(es)| + 1
  {
    RemovePathNoMoreBackups(es, p);
    BackupsAppend(RemovePath(es, p), Entry(p, true, t));
    if forall e :: e in es ==> e.path != p {
      RemoveAbsentPath(es, p);
    }
  }

  /**
   * The retention rule: when the backups do not already exceed the
   * maximum, a successful `BackupSave` leaves at most the maximum.
   */
  lemma {:induction false} BackupSaveKeepsMaximum(root: string, maxBackups: nat, disk: Disk,
                                                  fs: FsOutcomes, result: BackupResult, after: Disk)
    requires BackupSaveSpec(root, maxBackups, disk, fs, result, after)
    requires result == Succeeded && disk.rootExists && DistinctPaths(disk.entries)
    requires |Backups(disk.entries)| <= maxBackups
    ensures |Backups(after.entries)| <= maxBackups
  {
    var tm := fs.localTime.value;
    var p := NewBackupPath(root, tm);
    if |Backups(disk.entries)| < maxBackups {
      assert after.entries == AddDirectory(disk.entries, p, fs.copiedAt);
      AddDirectoryCount(disk.entries, p, fs.copiedAt);
    } else {
      var oldest :| IsOldestBackup(oldest, disk.entries) &&
        (result, after) == FinishBackup(root, RemovePath(disk.entries, oldest.path), fs);
      var remaining := RemovePath(disk.entries, oldest.path);
      assert after.entries == AddDirectory(remaining, p, fs.copiedAt);
      BackupsMembers(disk.entries);
      RemoveBackupCount(disk.entries, oldest);
      AddDirectoryCount(remaining, p, fs.copiedAt);
    }
  }

  /**
   * Eviction is one at a time: when the backups already exceed the maximum
   * (the maximum was lowered), a successful `BackupSave` that creates a new
   * directory leaves as many backups as there were, so the surplus is never
   * worked off.
   */
  lemma {:induction false} BackupSaveEvictsOnlyOne(root: string, maxBackups: nat, disk: Disk,
                                                   fs: FsOutcomes, result: BackupResult, after: Disk)
    requires BackupSaveSpec(root, maxBackups, disk, fs, result, after)
    requires result == Succeeded && disk.rootExists && DistinctPaths(disk.entries)
    requires |Backups(disk.entries)| > maxBackups
    requires fs.localTime.Some?
    requires forall e :: e in disk.entries ==> e.path != NewBackupPath(root, fs.localTime.value)
    ensures |Backups(after.entries)| == |Backups(disk.entries)|
  {
    var tm := fs.localTime.value;
    var p := NewBackupPath(root, tm);
    var oldest :| IsOldestBackup(oldest, disk.entries) &&
      (result, after) == FinishBackup(root, RemovePath(disk.entries, oldest.path), fs);
    var remaining := RemovePath(disk.entries, oldest.path);
    assert after.entries == AddDirectory(remaining, p, fs.copiedAt);
    BackupsMembers(disk.entries);
    RemoveBackupCount(disk.entries, oldest);
    RemovePathMembers(disk.entries, oldest.path);
    NewBackupIsListed(root, tm, fs.copiedAt);
    AddDirectoryCount(remaining, p, fs.copiedAt);
  }

  lemma BackupsOfThree(d1: Entry, d2: Entry, d3: Entry)
    requires IsBackup(d1) && IsBackup(d2) && IsBackup(d3)
    ensures Backups([d1, d2, d3]) == [d1, d2, d3]
  {
    assert [d1] == [] + [d1];
    assert [d1, d2] == [d1] + [d2];
    assert [d1, d2, d3] == [d1, d2] + [d3];
    BackupsAppend([], d1);
    BackupsAppend([d1], d2);
    BackupsAppend([d1, d2], d3);
  }

  lemma RemoveFirstOfThree(d1: Entry, d2: Entry, d3: Entry)
    requires d1.path != d2.path && d1.path != d3.path
    ensures RemovePath([d1, d2, d3], d1.path) == [d2, d3]
  {
    assert [d1] == [] + [d1];
    assert [d1, d2] == [d1] + [d2];
    assert [d1, d2, d3] == [d1, d2] + [d3];
    RemovePathAppend([], d1, d1.path);
    RemovePathAppend([d1], d2, d1.path);
    RemovePathAppend([d1, d2], d3, d1.path);
  }

  /**
   * Three backups written at t1 < t2 < t3 and a maximum of 2: the one
   * written at t1 is deleted and the new one is added, leaving three.
   */
  lemma {:induction false} ThreeBackupsMaximumTwo(root: string, d1: Entry, d2: Entry, d3: Entry,
                                                  fs: FsOutcomes, result: BackupResult, after: Disk)
    requires IsBackup(d1) && IsBackup(d2) && IsBackup(d3)
    requires d1.lastWriteTime < d2.lastWriteTime < d3.lastWriteTime
    requires d1.path != d2.path && d1.path != d3.path
    requires fs.removeSucceeds && fs.localTime.Some? && fs.copySucceeds
    requires NewBackupPath(root, fs.localTime.value) != d2.path
    requires NewBackupPath(root, fs.localTime.value) != d3.path
    requires BackupSaveSpec(root, 2, Disk(true, [d1, d2, d3]), fs, result, after)
    ensures result == Succeeded
    ensures after.entries == [d2, d3, Entry(NewBackupPath(root, fs.localTime.value), true, fs.copiedAt)]
  {
    var es := [d1, d2, d3];
    BackupsOfThree(d1, d2, d3);
    assert |Backups(es)| == 3;
    assert exists oldest :: (IsOldestBackup(oldest, es) &&
      (result, after) == FinishBackup(root, RemovePath(es, oldest.path), fs)) by {
      assert !(|Backups(es)| < 2) && |Backups(es)| != 0;
    }
    var oldest :| IsOldestBackup(oldest, es) &&
      (result, after) == FinishBackup(root, RemovePath(es, oldest.path), fs);
    OldestOfThree(d1, d2, d3, oldest);
    RemoveFirstOfThree(d1, d2, d3);
    CopyNextToTwo(root, d2, d3, fs);
  }

  lemma OldestOfThree(d1: Entry, d2: Entry, d3: Entry, oldest: Entry)
    requires IsBackup(d1) && IsBackup(d2) && IsBackup(d3)
    requires d1.lastWriteTime < d2.lastWriteTime < d3.lastWriteTime
    requires IsOldestBackup(oldest, [d1, d2, d3])
    ensures oldest == d1
  {
    BackupsOfThree(d1, d2, d3);
    assert oldest in [d1, d2, d3];
    assert d1 in Backups([d1, d2, d3]);
    assert oldest.lastWriteTime <= d1.lastWriteTime;
    assert oldest == d1 || oldest == d2 || oldest == d3;
    assert oldest != d2 && oldest != d3;
  }

  lemma CopyNextToTwo(root: string, d2: Entry, d3: Entry, fs: FsOutcomes)
    requires fs.localTime.Some? && fs.copySucceeds
    requires NewBackupPath(root, fs.localTime.value) != d2.path
    requires NewBackupPath(root, fs.localTime.value) != d3.path
    ensures FinishBackup(root, [d2, d3], fs)
            == (Succeeded, Disk(true, [d2, d3, Entry(NewBackupPath(root, fs.localTime.value), true, fs.copiedAt)]))
  {
    var p := NewBackupPath(root, fs.localTime.value);
    RemoveAbsentPath([d2, d3], p);
    FinishBackupCopies(root, [d2, d3], fs);
    var e := Entry(p, true, fs.copiedAt);
    assert AddDirectory([d2, d3], p, fs.copiedAt) == [d2, d3] + [e];
    assert [d2, d3] + [e] == [d2, d3, e];
  }
}
