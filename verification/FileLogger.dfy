/** Rotation of log files. */
module FileLoggers {
  import opened Strings
  import HttpText

  /** The files of a directory and their contents. */
  type Files = map<string, string>

  function Renamed(files: Files, from: string, to: string): Files {
    if from in files && to !in files then (files - {from})[to := files[from]] else files
  }

  /** The file system; `clobbered` counts the calls of `Rename` whose target existed. */
  class Disk {
    var files: Files
    ghost var clobbered: nat

    predicate Exists(name: string)
      reads this
    {
      name in files
    }

    method Remove(name: string)
      modifies this`files
      ensures files == old(files) - {name}
    {
      files := files - {name};
    }

    /** Never overwrites a file. */
    method Rename(from: string, to: string)
      modifies this
      ensures files == Renamed(old(files), from, to)
      ensures clobbered == old(clobbered) + if to in old(files) then 1 else 0
    {
      if to in files {
        clobbered := clobbered + 1;
      } else if from in files {
        files := (files - {from})[to := files[from]];
      }
    }
  }

  // ---------- Names of backups ----------

  function Backup(fileName: string, i: nat): (name: string)
    ensures name != fileName
  {
    fileName + "." + Number(i)
  }

  lemma BackupNames(fileName: string)
    ensures Backup(fileName, 1) == fileName + ".1" && Backup(fileName, 10) == fileName + ".10"
  {
    assert Number(1) == "1" && Number(10) == "1" + "0";
  }

  lemma BackupsDiffer(fileName: string, i: nat, j: nat)
    ensures Backup(fileName, i) == Backup(fileName, j) <==> i == j
  {
    var a, b := Backup(fileName, i), Backup(fileName, j);
    if a == b {
      assert Number(i) == a[|fileName| + 1..] == b[|fileName| + 1..] == Number(j);
      HttpText.NumberRoundTrip(i);
      HttpText.NumberRoundTrip(j);
    }
  }

  lemma AllBackupsDiffer(fileName: string)
    ensures forall i: nat, j: nat :: Backup(fileName, i) == Backup(fileName, j) <==> i == j
  {
    forall i: nat, j: nat
      ensures Backup(fileName, i) == Backup(fileName, j) <==> i == j
    {
      BackupsDiffer(fileName, i, j);
    }
  }

  /** The backups with a number in `[from..from + n)`. */
  function Names(fileName: string, from: nat, n: nat): set<string> {
    set i | from <= i < from + n :: Backup(fileName, i)
  }

  lemma {:induction false} NamesAreMany(fileName: string, from: nat, n: nat)
    ensures |Names(fileName, from, n)| == n
    decreases n
  {
    hide Backup;
    AllBackupsDiffer(fileName);
    if n == 0 {
      assert Names(fileName, from, 0) == {};
    } else {
      NamesAreMany(fileName, from, n - 1);
      assert Names(fileName, from, n) == Names(fileName, from, n - 1) + {Backup(fileName, from + n - 1)};
    }
  }

  /** There are at most as many backups as files. */
  lemma BackupsAreFew(files: Files, fileName: string, from: nat, n: nat)
    requires forall i :: from <= i < from + n ==> Backup(fileName, i) in files
    ensures n <= |files|
  {
    NamesAreMany(fileName, from, n);
    SubsetIsSmaller(Names(fileName, from, n), files.Keys);
    assert |files.Keys| == |files|;
  }

  lemma {:induction false} SubsetIsSmaller(a: set<string>, b: set<string>)
    requires a <= b
    ensures |a| <= |b|
    decreases |a|
  {
    if a != {} {
      var x :| x in a;
      SubsetIsSmaller(a - {x}, b - {x});
    }
  }

  /** From number `from` on, `n` backups follow without a gap, and the next one is missing. */
  ghost predicate IsRun(files: Files, fileName: string, from: nat, n: nat) {
    && (forall i :: from <= i < from + n ==> Backup(fileName, i) in files)
    && Backup(fileName, from + n) !in files
  }

  lemma {:induction false} RunExists(files: Files, fileName: string, from: nat, k: nat) returns (n: nat)
    requires forall i :: from <= i < from + k ==> Backup(fileName, i) in files
    ensures IsRun(files, fileName, from, n)
    decreases |files| - k
  {
    BackupsAreFew(files, fileName, from, k);
    if Backup(fileName, from + k) in files {
      BackupsAreFew(files, fileName, from, k + 1);
      n := RunExists(files, fileName, from, k + 1);
    } else {
      n := k;
    }
  }

  lemma RunIsUnique(files: Files, fileName: string, from: nat, n: nat, k: nat)
    requires IsRun(files, fileName, from, n) && IsRun(files, fileName, from, k)
    ensures n == k
  {
  }

  /** The number of backups that follow from number `from` on without a gap. */
  ghost function Run(files: Files, fileName: string, from: nat): (n: nat)
    ensures IsRun(files, fileName, from, n)
  {
    assert exists n: nat :: IsRun(files, fileName, from, n) by {
      var n := RunExists(files, fileName, from, 0);
    }
    var n: nat :| IsRun(files, fileName, from, n);
    n
  }

  // ---------- Rotation ----------

  /** How many of the `n` contiguous backups survive. */
  function Survivors(n: nat, maxBackups: int): nat {
    if maxBackups > 0 && n >= maxBackups then maxBackups - 1 else n
  }

  /** Backup `i` has become backup `i + 1`. */
  predicate Moved(before: Files, after: Files, fileName: string, i: nat) {
    && Backup(fileName, i) in before && Backup(fileName, i + 1) in after
    && after[Backup(fileName, i + 1)] == before[Backup(fileName, i)]
  }

  predicate Untouched(before: Files, after: Files, name: string) {
    if name in before then name in after && after[name] == before[name] else name !in after
  }

  ghost predicate IsBackup(fileName: string, name: string, n: nat) {
    exists i :: 1 <= i <= n && name == Backup(fileName, i)
  }

  /** The state after a rotation with `n` contiguous backups: the log is the first backup, each survivor the next. */
  ghost predicate Rotated(before: Files, after: Files, fileName: string, n: nat, maxBackups: int) {
    var kept := Survivors(n, maxBackups);
    && fileName !in after
    && (if fileName in before then Backup(fileName, 1) in after && after[Backup(fileName, 1)] == before[fileName]
        else Backup(fileName, 1) !in after)
    && (forall i: nat :: 1 <= i <= kept ==> Moved(before, after, fileName, i))
    && (forall i: nat :: kept + 1 < i <= n + 1 ==> Backup(fileName, i) !in after)
    && (forall name :: name != fileName && !IsBackup(fileName, name, n + 1) ==> Untouched(before, after, name))
  }

  lemma FirstBackup(before: Files, after: Files, fileName: string, n: nat, maxBackups: int)
    requires Rotated(before, after, fileName, n, maxBackups)
    ensures fileName in before ==> Backup(fileName, 1) in after && after[Backup(fileName, 1)] == before[fileName]
  {
  }

  /** Moves backups `i`, ..., 1 to the next number. */
  function Shifted(files: Files, fileName: string, i: nat): Files
    decreases i
  {
    if i == 0 then files else Shifted(Renamed(files, Backup(fileName, i), Backup(fileName, i + 1)), fileName, i - 1)
  }

  lemma {:induction false} ShiftMoves(files: Files, fileName: string, n: nat)
    requires forall i :: 1 <= i <= n ==> Backup(fileName, i) in files
    requires Backup(fileName, n + 1) !in files
    ensures var after := Shifted(files, fileName, n);
      && Backup(fileName, 1) !in after
      && (forall i: nat :: 1 <= i <= n ==> Moved(files, after, fileName, i))
      && (forall name :: !IsBackup(fileName, name, n + 1) ==> Untouched(files, after, name))
    decreases n
  {
    hide Backup;
    AllBackupsDiffer(fileName);
    if n > 0 {
      var next := Renamed(files, Backup(fileName, n), Backup(fileName, n + 1));
      var after := Shifted(next, fileName, n - 1);
      assert forall i :: 1 <= i <= n - 1 ==>
        Backup(fileName, i) in next && next[Backup(fileName, i)] == files[Backup(fileName, i)];
      ShiftMoves(next, fileName, n - 1);
      assert !IsBackup(fileName, Backup(fileName, n + 1), n);
      assert Untouched(next, after, Backup(fileName, n + 1));
      forall i: nat | 1 <= i <= n
        ensures Moved(files, after, fileName, i)
      {
        if i < n {
          assert Moved(next, after, fileName, i);
        }
      }
      forall name | !IsBackup(fileName, name, n + 1)
        ensures Untouched(files, after, name)
      {
        assert name != Backup(fileName, n) && name != Backup(fileName, n + 1) && !IsBackup(fileName, name, n);
        assert Untouched(next, after, name);
      }
    }
  }

  /** The three parts of a rotation, one after the other. */
  lemma RotationSteps(before: Files, fileName: string, n: nat, maxBackups: int)
    requires IsRun(before, fileName, 1, n)
    ensures var kept := Survivors(n, maxBackups);
      var shortened := before - Names(fileName, kept + 1, n - kept);
      var shifted := Shifted(shortened, fileName, kept);
      && (forall i :: 1 <= i <= kept ==> Backup(fileName, i) in shortened)
      && Backup(fileName, kept + 1) !in shortened && Backup(fileName, 1) !in shifted
      && Rotated(before, Renamed(shifted, fileName, Backup(fileName, 1)), fileName, n, maxBackups)
  {
    hide Backup;
    AllBackupsDiffer(fileName);
    var kept := Survivors(n, maxBackups);
    var shortened := before - Names(fileName, kept + 1, n - kept);
    assert kept < n ==> Backup(fileName, kept + 1) in Names(fileName, kept + 1, n - kept);
    ShiftMoves(shortened, fileName, kept);
    var shifted := Shifted(shortened, fileName, kept);
    var after := Renamed(shifted, fileName, Backup(fileName, 1));
    assert !IsBackup(fileName, fileName, kept + 1);
    assert Untouched(shortened, shifted, fileName);
    forall i: nat | 1 <= i <= kept
      ensures Moved(before, after, fileName, i)
    {
      assert Moved(shortened, shifted, fileName, i);
    }
    forall i: nat | kept + 1 < i <= n + 1
      ensures Backup(fileName, i) !in after
    {
      assert i <= n ==> Backup(fileName, i) in Names(fileName, kept + 1, n - kept);
      assert !IsBackup(fileName, Backup(fileName, i), kept + 1);
      assert Untouched(shortened, shifted, Backup(fileName, i));
    }
    forall name | name != fileName && !IsBackup(fileName, name, n + 1)
      ensures Untouched(before, after, name)
    {
      assert name != Backup(fileName, 1);
      assert !IsBackup(fileName, name, kept + 1) && name !in Names(fileName, kept + 1, n - kept);
      assert Untouched(shortened, shifted, name);
    }
  }

  // ---------- The number of backups afterwards ----------

  /**
   Exactly how many contiguous backups there are after a rotation: none if there was no log; as many as are allowed if
   the maximum was reached; and otherwise one more than before, and the backups behind the gap, which is now filled.
   */
  ghost function BackupCount(before: Files, fileName: string, n: nat, maxBackups: int): nat {
    if fileName !in before then 0
    else if maxBackups > 0 && n >= maxBackups then maxBackups
    else n + 1 + Run(before, fileName, n + 2)
  }

  lemma BackupsAfter(before: Files, after: Files, fileName: string, n: nat, maxBackups: int)
    requires IsRun(before, fileName, 1, n) && Rotated(before, after, fileName, n, maxBackups)
    ensures IsRun(after, fileName, 1, BackupCount(before, fileName, n, maxBackups))
  {
    if fileName in before {
      BackupsBehindLog(before, after, fileName, n, maxBackups);
    }
  }

  lemma BackupsBehindLog(before: Files, after: Files, fileName: string, n: nat, maxBackups: int)
    requires IsRun(before, fileName, 1, n) && Rotated(before, after, fileName, n, maxBackups) && fileName in before
    ensures IsRun(after, fileName, 1, BackupCount(before, fileName, n, maxBackups))
  {
    hide Backup;
    AllBackupsDiffer(fileName);
    var kept, behind := Survivors(n, maxBackups), Run(before, fileName, n + 2);
    forall i | 1 <= i <= kept + 1
      ensures Backup(fileName, i) in after
    {
      if i > 1 {
        assert Moved(before, after, fileName, i - 1);
      }
    }
    forall i: nat | i > n + 1
      ensures Untouched(before, after, Backup(fileName, i))
    {
      assert !IsBackup(fileName, Backup(fileName, i), n + 1);
    }
  }

  /**
   The backups are within their maximum after a rotation if and only if there was no log, or there were enough of them
   before, or the gap that is filled does not join them to too many others.
   */
  lemma WithinMaximum(before: Files, after: Files, fileName: string, n: nat, maxBackups: int)
    requires IsRun(before, fileName, 1, n) && Rotated(before, after, fileName, n, maxBackups) && maxBackups > 0
    ensures Run(after, fileName, 1) <= maxBackups
       <==> fileName !in before || n >= maxBackups || n + 1 + Run(before, fileName, n + 2) <= maxBackups
  {
    hide Rotated;
    BackupsAfter(before, after, fileName, n, maxBackups);
    RunIsUnique(after, fileName, 1, BackupCount(before, fileName, n, maxBackups), Run(after, fileName, 1));
  }

  /** No backup has a number above `n`. */
  ghost predicate Gapless(files: Files, fileName: string, n: nat) {
    IsRun(files, fileName, 1, n) && forall i :: i > n ==> Backup(fileName, i) !in files
  }

  /**
   Rotation makes a gap if and only if there is no log but a backup that is kept; otherwise the backups stay gapless and
   within any maximum, changed or not.
   */
  lemma GaplessStays(before: Files, after: Files, fileName: string, n: nat, maxBackups: int) returns (k: nat)
    requires Gapless(before, fileName, n) && Rotated(before, after, fileName, n, maxBackups)
    ensures if fileName in before || Survivors(n, maxBackups) == 0 then
              Gapless(after, fileName, k) && (maxBackups > 0 ==> k <= maxBackups) && k <= n + 1
            else forall j :: !Gapless(after, fileName, j)
  {
    if fileName in before {
      k := GaplessWithLog(before, after, fileName, n, maxBackups);
    } else {
      k := 0;
      GaplessWithoutLog(before, after, fileName, n, maxBackups);
    }
  }

  lemma GaplessWithoutLog(before: Files, after: Files, fileName: string, n: nat, maxBackups: int)
    requires Gapless(before, fileName, n) && Rotated(before, after, fileName, n, maxBackups) && fileName !in before
    ensures if Survivors(n, maxBackups) == 0 then Gapless(after, fileName, 0)
            else forall j :: !Gapless(after, fileName, j)
  {
    hide Backup;
    AllBackupsDiffer(fileName);
    if Survivors(n, maxBackups) == 0 {
      forall i: nat | i > 0
        ensures Backup(fileName, i) !in after
      {
        assert i > n + 1 ==> !IsBackup(fileName, Backup(fileName, i), n + 1);
        assert i > n + 1 ==> Untouched(before, after, Backup(fileName, i));
      }
    } else {
      assert Moved(before, after, fileName, 1);
      forall j: nat
        ensures !Gapless(after, fileName, j)
      {
        assert Backup(fileName, 2) in after && Backup(fileName, 1) !in after;
      }
    }
  }

  lemma GaplessWithLog(before: Files, after: Files, fileName: string, n: nat, maxBackups: int) returns (k: nat)
    requires Gapless(before, fileName, n) && Rotated(before, after, fileName, n, maxBackups) && fileName in before
    ensures Gapless(after, fileName, k) && (maxBackups > 0 ==> k <= maxBackups) && k <= n + 1
  {
    hide Backup;
    AllBackupsDiffer(fileName);
    RunIsUnique(before, fileName, n + 2, 0, Run(before, fileName, n + 2));
    BackupsAfter(before, after, fileName, n, maxBackups);
    k := if maxBackups > 0 && n >= maxBackups then maxBackups else n + 1;
    forall i: nat | i > k
      ensures Backup(fileName, i) !in after
    {
      assert i > n + 1 ==> !IsBackup(fileName, Backup(fileName, i), n + 1);
      assert i > n + 1 ==> Untouched(before, after, Backup(fileName, i));
    }
  }

  /** A gap in the numbers: with backups 1 and 3 and a maximum of 2, there are 3 backups afterwards. */
  lemma GapExceedsMaximum(fileName: string)
    ensures var before := map[fileName := "log", Backup(fileName, 1) := "old", Backup(fileName, 3) := "older"];
      forall after :: Rotated(before, after, fileName, 1, 2) ==> Run(after, fileName, 1) == 3
  {
    hide Backup;
    AllBackupsDiffer(fileName);
    var before := map[fileName := "log", Backup(fileName, 1) := "old", Backup(fileName, 3) := "older"];
    assert IsRun(before, fileName, 1, 1) && IsRun(before, fileName, 3, 1);
    RunIsUnique(before, fileName, 3, 1, Run(before, fileName, 3));
    forall after | Rotated(before, after, fileName, 1, 2)
      ensures Run(after, fileName, 1) == 3
    {
      BackupsAfter(before, after, fileName, 1, 2);
      RunIsUnique(after, fileName, 1, 3, Run(after, fileName, 1));
    }
  }

  class FileLogger {
    const fileName: string
    const disk: Disk
    var maxBackups: int

    constructor (fileName: string, disk: Disk, maxBackups: int)
      ensures this.fileName == fileName && this.disk == disk && this.maxBackups == maxBackups
    {
      this.fileName, this.disk, this.maxBackups := fileName, disk, maxBackups;
    }

    method CountBackups() returns (count: nat)
      ensures count == Run(disk.files, fileName, 1)
    {
      count := 0;
      while disk.Exists(Backup(fileName, count + 1))
        invariant forall i :: 1 <= i < 1 + count ==> Backup(fileName, i) in disk.files
        decreases |disk.files| - count
      {
        BackupsAreFew(disk.files, fileName, 1, count + 1);
        count := count + 1;
      }
      RunIsUnique(disk.files, fileName, 1, count, Run(disk.files, fileName, 1));
    }

    /** Removes the oldest backups, so that one more will not exceed the maximum number. */
    method RemoveOldest(n: nat) returns (count: nat)
      modifies disk`files
      ensures count == Survivors(n, maxBackups)
      ensures disk.files == old(disk.files) - Names(fileName, count + 1, n - count)
      ensures disk.clobbered == old(disk.clobbered)
    {
      count := n;
      assert Names(fileName, count + 1, 0) == {};
      while maxBackups > 0 && count >= maxBackups
        invariant count <= n && (count == n || (maxBackups > 0 && count + 1 >= maxBackups))
        invariant disk.files == old(disk.files) - Names(fileName, count + 1, n - count)
      {
        disk.Remove(Backup(fileName, count));
        assert Names(fileName, count, n - count + 1)
            == Names(fileName, count + 1, n - count) + {Backup(fileName, count)};
        count := count - 1;
      }
    }

    /** Gives each backup the next number; the last one first, so that no file is in the way. */
    method ShiftBackups(count: nat)
      requires forall i :: 1 <= i <= count ==> Backup(fileName, i) in disk.files
      requires Backup(fileName, count + 1) !in disk.files
      modifies disk
      ensures disk.clobbered == old(disk.clobbered)
      ensures disk.files == Shifted(old(disk.files), fileName, count)
    {
      AllBackupsDiffer(fileName);
      for i := count downto 0
        invariant disk.clobbered == old(disk.clobbered)
        invariant forall j :: 1 <= j <= i ==> Backup(fileName, j) in disk.files
        invariant Backup(fileName, i + 1) !in disk.files
        invariant Shifted(disk.files, fileName, i) == Shifted(old(disk.files), fileName, count)
      {
        disk.Rename(Backup(fileName, i + 1), Backup(fileName, i + 2));
      }
    }

    /**
     Whatever files there are, and whatever the maximum number was before: the log becomes the first backup and each
     surviving backup the next one; only the oldest contiguous backups are lost, and no rename has a file in its way.
     */
    method Rotate()
      modifies disk
      ensures Rotated(old(disk.files), disk.files, fileName, Run(old(disk.files), fileName, 1), maxBackups)
      ensures disk.clobbered == old(disk.clobbered)
      ensures old(fileName in disk.files) ==>
        fileName + ".1" in disk.files && disk.files[fileName + ".1"] == old(disk.files[fileName])
    {
      BackupNames(fileName);
      hide Backup, Rotated, Names, Shifted, Survivors;
      var n := CountBackups();
      RotationSteps(disk.files, fileName, n, maxBackups);
      var count := RemoveOldest(n);
      ShiftBackups(count);
      disk.Rename(fileName, Backup(fileName, 1));
      FirstBackup(old(disk.files), disk.files, fileName, n, maxBackups);
    }
  }
}
