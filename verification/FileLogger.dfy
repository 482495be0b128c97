/** The log file of src/app/filelogger.cpp: rotation into numbered backups, and removal of old ones.
    The log directory is a map from file names to the lines they hold. */
module FileLogger {
  import opened Collections

  type Files = map<string, seq<string>>

  /** QString::number. */
  function Decimal(n: nat): (s: string)
    ensures s != ""
  {
    var digit := ['0' + (n % 10) as char];
    if n < 10 then digit else Decimal(n / 10) + digit
  }

  lemma {:induction false} DecimalInjective(m: nat, n: nat)
    requires Decimal(m) == Decimal(n)
    ensures m == n
    decreases m + n
  {
    var s := Decimal(m);
    assert s[|s| - 1] == '0' + (m % 10) as char == '0' + (n % 10) as char;
    if m >= 10 && n >= 10 {
      assert s[..|s| - 1] == Decimal(m / 10) == Decimal(n / 10);
      DecimalInjective(m / 10, n / 10);
    }
  }

  /** The number a string of digits stands for. */
  function Value(s: string): int {
    if s == "" then 0 else 10 * Value(s[..|s| - 1]) + (s[|s| - 1] as int - '0' as int)
  }

  /** Digits only, of the right value, without a leading zero. */
  lemma {:induction false} DecimalIs(n: nat)
    ensures Value(Decimal(n)) == n
    ensures forall c :: c in Decimal(n) ==> '0' <= c <= '9'
    ensures n > 0 ==> Decimal(n)[0] != '0'
  {
    var s := Decimal(n);
    assert s[|s| - 1] as int - '0' as int == n % 10;
    if n < 10 {
      assert s[..0] == "" && Value(s) == 10 * Value(s[..0]) + n;
    } else {
      DecimalIs(n / 10);
      assert s[..|s| - 1] == Decimal(n / 10);
    }
  }

  /** ".bak", ".bak1", ".bak2", ... */
  function BackupName(path: string, n: nat): string {
    path + ".bak" + if n == 0 then "" else Decimal(n)
  }

  lemma BackupNamesDiffer(path: string, m: nat, n: nat)
    requires m != n
    ensures BackupName(path, m) != BackupName(path, n) && BackupName(path, m) != path
  {
    if BackupName(path, m) == BackupName(path, n) {
      var k := |path + ".bak"|;
      assert BackupName(path, m)[k..] == BackupName(path, n)[k..];
      if m > 0 && n > 0 {
        assert BackupName(path, m)[k..] == Decimal(m) && BackupName(path, n)[k..] == Decimal(n);
        DecimalInjective(m, n);
      }
    }
  }

  ghost function BackupNames(path: string, n: nat): set<string> {
    set k: nat | k < n :: BackupName(path, k)
  }

  lemma {:induction false} BackupNamesCount(path: string, n: nat)
    ensures |BackupNames(path, n)| == n
  {
    if n > 0 {
      BackupNamesCount(path, n - 1);
      forall k: nat | k < n - 1
        ensures BackupName(path, k) != BackupName(path, n - 1)
      {
        BackupNamesDiffer(path, k, n - 1);
      }
      assert BackupNames(path, n) == BackupNames(path, n - 1) + {BackupName(path, n - 1)};
    }
  }

  ghost predicate IsFirstFree(files: Files, path: string, n: nat) {
    BackupName(path, n) !in files && forall k: nat :: k < n ==> BackupName(path, k) in files
  }

  /** The search for a free name ends: only finitely many names are taken. */
  method FirstFree(files: Files, path: string) returns (name: string, counter: nat)
    ensures IsFirstFree(files, path, counter) && name == BackupName(path, counter)
    ensures name == path + ".bak" + (if counter == 0 then "" else Decimal(counter)) && name !in files
    ensures counter > 0 ==> path + ".bak" in files
    ensures forall k: nat :: 0 < k < counter ==> path + ".bak" + Decimal(k) in files
  {
    counter := 0;
    name := path + ".bak";
    assert name == BackupName(path, 0);
    while name in files
      invariant name == BackupName(path, counter)
      invariant forall k: nat :: k < counter ==> BackupName(path, k) in files
      decreases |files| - counter
    {
      counter := counter + 1;
      name := path + ".bak" + Decimal(counter);
      BackupNamesCount(path, counter);
      assert BackupNames(path, counter) <= files.Keys;
      SubsetSize(BackupNames(path, counter), files.Keys);
    }
    forall k: nat | 0 < k < counter
      ensures path + ".bak" + Decimal(k) in files
    {
      assert BackupName(path, k) in files;
    }
    assert counter > 0 ==> BackupName(path, 0) in files;
  }

  // ----- the whole log, oldest line first -----------------------------------------------

  function LinesOf(files: Files, name: string): seq<string> {
    if name in files then files[name] else []
  }

  function BackedUp(files: Files, path: string, n: nat): seq<string> {
    if n == 0 then [] else BackedUp(files, path, n - 1) + LinesOf(files, BackupName(path, n - 1))
  }

  function WholeLog(files: Files, path: string, n: nat): seq<string> {
    BackedUp(files, path, n) + LinesOf(files, path)
  }

  /** The backups are exactly the first `n` names. */
  ghost predicate Contiguous(files: Files, path: string, n: nat) {
    forall k: nat :: BackupName(path, k) in files <==> k < n
  }

  /** QFile::rename to a free name. */
  function Moved(files: Files, from: string, to: string): Files
    requires from in files
  {
    (files - {from})[to := files[from]]
  }

  lemma {:induction false} BackedUpSame(files: Files, files': Files, path: string, n: nat)
    requires forall k: nat :: k < n ==> LinesOf(files', BackupName(path, k)) == LinesOf(files, BackupName(path, k))
    ensures BackedUp(files', path, n) == BackedUp(files, path, n)
  {
    if n > 0 {
      BackedUpSame(files, files', path, n - 1);
    }
  }

  lemma PathIsNoBackup(path: string, k: nat)
    ensures BackupName(path, k) != path
  {
    BackupNamesDiffer(path, k, k + 1);
  }

  /** Appending a line to the current file appends it to the whole log. */
  lemma AppendLogged(files: Files, path: string, n: nat, line: string)
    requires path in files && Contiguous(files, path, n)
    ensures Contiguous(files[path := files[path] + [line]], path, n)
    ensures WholeLog(files[path := files[path] + [line]], path, n) == WholeLog(files, path, n) + [line]
  {
    forall k: nat ensures BackupName(path, k) != path { PathIsNoBackup(path, k); }
    BackedUpSame(files, files[path := files[path] + [line]], path, n);
  }

  /** Rotation moves the current file behind the backups: the whole log stays. */
  lemma RotationKeepsLog(files: Files, files': Files, path: string, n: nat)
    requires path in files && Contiguous(files, path, n)
    requires var moved := Moved(files, path, BackupName(path, n)); files' == moved || files' == moved[path := []]
    ensures Contiguous(files', path, n + 1)
    ensures WholeLog(files', path, n + 1) == WholeLog(files, path, n)
  {
    forall k: nat
      ensures BackupName(path, k) != path && (k != n ==> BackupName(path, k) != BackupName(path, n))
    {
      PathIsNoBackup(path, k);
      if k != n { BackupNamesDiffer(path, k, n); }
    }
    BackedUpSame(files, files', path, n);
  }

  class FileLogger {
    const m_path: string
    var m_backup: bool
    var m_maxSize: int
    var isOpen: bool
    var flusherActive: bool
    var files: Files

    ghost predicate Valid()
      reads this
    {
      isOpen ==> m_path in files
    }

    constructor (path: string, files: Files, backup: bool, maxSize: int, openOk: bool, permissionsOk: bool)
      ensures Valid() && m_path == path && isOpen == (openOk && permissionsOk)
      ensures this.files == if openOk && path !in files then files[path := []] else files
    {
      m_path, m_backup, m_maxSize, flusherActive := path, backup, maxSize, false;
      isOpen := false;
      this.files := files;
      new;
      OpenLogFile(openOk, permissionsOk);
    }

    /** openLogFile: append mode creates a missing file and keeps an existing one; a file whose
        permissions cannot be set is closed again. */
    method OpenLogFile(openOk: bool, permissionsOk: bool)
      modifies `isOpen, `files
      ensures isOpen == (openOk && permissionsOk)
      ensures files == if openOk && m_path !in old(files) then old(files)[m_path := []] else old(files)
    {
      isOpen := openOk && permissionsOk;
      if openOk && m_path !in files {
        files := files[m_path := []];
      }
    }

    /** addLogMessage. The size the file reports, and whether rename and reopening succeed, are up to
        the environment. `n` is the number of the backup a rotation writes to. */
    method AddLogMessage(line: string, reportedSize: int, renameOk: bool, openOk: bool, permissionsOk: bool)
      returns (ghost n: nat)
      requires Valid()
      modifies `isOpen, `flusherActive, `files
      ensures Valid()
      ensures !old(isOpen) ==> files == old(files) && !isOpen
      ensures old(isOpen) && !(m_backup && reportedSize >= m_maxSize) ==>
                isOpen && flusherActive && files == old(files)[m_path := old(files)[m_path] + [line]]
      ensures old(isOpen) && m_backup && reportedSize >= m_maxSize ==>
                var written := old(files)[m_path := old(files)[m_path] + [line]];
                && IsFirstFree(written, m_path, n)
                && isOpen == (openOk && permissionsOk) && !flusherActive
                && files == (if !renameOk then written
                             else if openOk then Moved(written, m_path, BackupName(m_path, n))[m_path := []]
                             else Moved(written, m_path, BackupName(m_path, n)))
    {
      n := 0;
      if !isOpen {
        return;
      }
      files := files[m_path := files[m_path] + [line]];
      if m_backup && reportedSize >= m_maxSize {
        flusherActive, isOpen := false, false;
        var backupLogFilename, counter := FirstFree(files, m_path);
        n := counter;
        PathIsNoBackup(m_path, counter);
        if renameOk {
          files := Moved(files, m_path, backupLogFilename);
        }
        OpenLogFile(openOk, permissionsOk);
      } else {
        flusherActive := true;
      }
    }

    /** With contiguous backups at the start, any run of messages only ever appends to the whole log:
        backups in numerical order, then the current file. */
    method LogAll(lines: seq<string>, sizes: seq<int>, renames: seq<bool>, reopens: seq<(bool, bool)>,
                  ghost backups: nat)
      returns (ghost backups': nat, ghost accepted: nat)
      requires Valid() && isOpen && |sizes| == |renames| == |reopens| == |lines|
      requires Contiguous(files, m_path, backups)
      modifies `isOpen, `flusherActive, `files
      ensures accepted <= |lines| && (isOpen ==> accepted == |lines|)
      ensures backups <= backups' && Contiguous(files, m_path, backups')
      ensures WholeLog(files, m_path, backups') == WholeLog(old(files), m_path, backups) + lines[..accepted]
    {
      backups', accepted := backups, 0;
      for i := 0 to |lines|
        invariant Valid() && accepted <= i && (isOpen ==> accepted == i)
        invariant backups <= backups' && Contiguous(files, m_path, backups')
        invariant WholeLog(files, m_path, backups') == WholeLog(old(files), m_path, backups) + lines[..accepted]
      {
        ghost var open := isOpen;
        backups' := LogOne(lines[i], sizes[i], renames[i], reopens[i], backups');
        if open {
          assert lines[..i + 1] == lines[..i] + [lines[i]];
          accepted := i + 1;
        }
      }
    }

    method LogOne(line: string, size: int, renameOk: bool, reopen: (bool, bool), ghost backups: nat)
      returns (ghost backups': nat)
      requires Valid() && Contiguous(files, m_path, backups)
      modifies `isOpen, `flusherActive, `files
      ensures Valid() && (isOpen ==> old(isOpen))
      ensures backups <= backups' <= backups + 1 && Contiguous(files, m_path, backups')
      ensures WholeLog(files, m_path, backups') ==
              WholeLog(old(files), m_path, backups) + if old(isOpen) then [line] else []
    {
      ghost var before, open := files, isOpen;
      ghost var n := AddLogMessage(line, size, renameOk, reopen.0, reopen.1);
      backups' := backups;
      if open {
        ghost var written := before[m_path := before[m_path] + [line]];
        AppendLogged(before, m_path, backups, line);
        if m_backup && size >= m_maxSize && renameOk {
          assert BackupName(m_path, backups) !in written && n == backups;
          RotationKeepsLog(written, files, m_path, backups);
          backups' := backups + 1;
        }
      }
    }

    /** deleteOld, on the directory's list of backups, oldest first; `aged` adds the configured age, and
        forceRemove may fail on some. */
    method DeleteOld(fileList: seq<(string, int)>, aged: int -> int, now: int, removable: string -> bool)
      requires forall i, j :: 0 <= i < j < |fileList| ==> fileList[i].1 <= fileList[j].1
      requires forall x, y :: x <= y ==> aged(x) <= aged(y)
      modifies `files
      ensures files == old(files) - Expired(fileList, aged, now, removable)
    {
      var i := 0;
      while i < |fileList|
        invariant 0 <= i <= |fileList|
        invariant forall k :: 0 <= k < i ==> aged(fileList[k].1) <= now
        invariant files == old(files) - Expired(fileList[..i], aged, now, removable)
      {
        assert fileList[..i + 1] == fileList[..i] + [fileList[i]];
        if aged(fileList[i].1) > now {
          break;
        }
        ExpiredOne(fileList[..i], fileList[i], aged, now, removable);
        if removable(fileList[i].0) {
          files := files - {fileList[i].0};
        }
        i := i + 1;
      }
      ExpiredPrefix(fileList, i, aged, now, removable);
    }
  }

  // ----- deleting old backups -------------------------------------------------------------

  /** The backups whose aged date is not after now, as far as they can be removed. */
  ghost function Expired(fileList: seq<(string, int)>, aged: int -> int, now: int,
                         removable: string -> bool): set<string> {
    set i | 0 <= i < |fileList| && aged(fileList[i].1) <= now && removable(fileList[i].0) :: fileList[i].0
  }

  lemma ExpiredOne(init: seq<(string, int)>, last: (string, int), aged: int -> int, now: int, removable: string -> bool)
    ensures Expired(init + [last], aged, now, removable) ==
            Expired(init, aged, now, removable)
            + if aged(last.1) <= now && removable(last.0) then {last.0} else {}
  {
    var all := init + [last];
    assert forall i :: 0 <= i < |init| ==> all[i] == init[i];
    assert all[|init|] == last;
  }

  /** On the oldest-first list nothing after the first entry that is too young is expired. */
  lemma ExpiredPrefix(fileList: seq<(string, int)>, n: nat, aged: int -> int, now: int, removable: string -> bool)
    requires forall i, j :: 0 <= i < j < |fileList| ==> fileList[i].1 <= fileList[j].1
    requires forall x, y :: x <= y ==> aged(x) <= aged(y)
    requires n <= |fileList| && (n < |fileList| ==> aged(fileList[n].1) > now)
    ensures Expired(fileList[..n], aged, now, removable) == Expired(fileList, aged, now, removable)
  {
    forall i | n <= i < |fileList|
      ensures aged(fileList[i].1) > now
    {
      assert fileList[n].1 <= fileList[i].1;
    }
    assert forall i :: 0 <= i < n ==> fileList[..n][i] == fileList[i];
  }

  /** The numbers of the backups are those below some bound. */
  ghost predicate NumbersContiguous(files: Files, path: string) {
    exists m: nat :: Contiguous(files, path, m)
  }

  /** A rotation writes to a number above every existing backup if and only if there is no gap. */
  lemma RotationOnTopIff(files: Files, path: string, n: nat)
    requires IsFirstFree(files, path, n)
    ensures (forall k: nat :: BackupName(path, k) in files ==> k < n) <==> NumbersContiguous(files, path)
  {
    if forall k: nat :: BackupName(path, k) in files ==> k < n {
      assert Contiguous(files, path, n);
    }
    if NumbersContiguous(files, path) {
      var m: nat :| Contiguous(files, path, m);
      assert BackupName(path, n) !in files;
    }
  }

  /** Every backup has a date, and higher numbers do not have earlier ones. */
  ghost predicate InAgeOrder(files: Files, path: string, date: map<nat, int>) {
    && (forall k: nat :: BackupName(path, k) in files ==> k in date)
    && forall a: nat, b: nat :: a < b && BackupName(path, a) in files && BackupName(path, b) in files ==>
        date[a] <= date[b]
  }

  /** From numbers in the order of age, a rotation, which writes the youngest backup, keeps them so if
      and only if there is no gap. */
  lemma RotationKeepsAgeOrderIff(files: Files, path: string, n: nat, date: map<nat, int>, youngest: int)
    requires path in files && IsFirstFree(files, path, n) && InAgeOrder(files, path, date)
    requires forall k: nat :: k in date ==> date[k] < youngest
    ensures InAgeOrder(Moved(files, path, BackupName(path, n)), path, date[n := youngest])
            <==> NumbersContiguous(files, path)
  {
    var files' := Moved(files, path, BackupName(path, n));
    RotationOnTopIff(files, path, n);
    BackupsAfterMove(files, path, n);
    if !(forall k: nat :: BackupName(path, k) in files ==> k < n) {
      var k: nat :| BackupName(path, k) in files && k >= n;
      assert n < k && BackupName(path, n) in files' && BackupName(path, k) in files';
    }
  }

  lemma BackupsAfterMove(files: Files, path: string, n: nat)
    requires path in files
    ensures forall k: nat :: BackupName(path, k) in Moved(files, path, BackupName(path, n)) <==>
                               k == n || BackupName(path, k) in files
  {
    forall k: nat
      ensures BackupName(path, k) != path && (k != n ==> BackupName(path, k) != BackupName(path, n))
    {
      PathIsNoBackup(path, k);
      if k != n { BackupNamesDiffer(path, k, n); }
    }
  }

  /** deleteOld's list when the backups are the first |dates| numbers, oldest first. */
  function Listing(path: string, dates: seq<int>): (r: seq<(string, int)>)
    ensures |r| == |dates| && forall k :: 0 <= k < |dates| ==> r[k] == (BackupName(path, k), dates[k])
  {
    seq(|dates|, k requires 0 <= k < |dates| => (BackupName(path, k), dates[k]))
  }

  /** From backups without a gap and in the order of their dates, after deleteOld, every removal
      succeeding, the numbers are still without a gap if and only if it removed all or none. */
  lemma DeleteLeavesNoGapIff(files: Files, path: string, dates: seq<int>, aged: int -> int, now: int)
    requires Contiguous(files, path, |dates|) && forall i, j :: 0 <= i < j < |dates| ==> dates[i] <= dates[j]
    requires forall x, y :: x <= y ==> aged(x) <= aged(y)
    ensures NumbersContiguous(files - Expired(Listing(path, dates), aged, now, _ => true), path) <==>
            dates == [] || aged(dates[|dates| - 1]) <= now || aged(dates[0]) > now
  {
    var n := |dates|;
    var left := files - Expired(Listing(path, dates), aged, now, _ => true);
    forall k: nat
      ensures BackupName(path, k) in left <==> k < n && aged(dates[k]) > now
    {
      LeftAfterDelete(files, path, dates, aged, now, k);
    }
    if dates == [] || aged(dates[0]) > now {
      forall k | 0 <= k < n
        ensures aged(dates[k]) > now
      {
        assert aged(dates[0]) <= aged(dates[k]);
      }
      assert Contiguous(left, path, n);
    } else if aged(dates[n - 1]) <= now {
      forall k | 0 <= k < n
        ensures aged(dates[k]) <= now
      {
        assert aged(dates[k]) <= aged(dates[n - 1]);
      }
      assert Contiguous(left, path, 0);
    } else {
      assert BackupName(path, 0) !in left && BackupName(path, n - 1) in left;
    }
  }

  lemma LeftAfterDelete(files: Files, path: string, dates: seq<int>, aged: int -> int, now: int, k: nat)
    requires Contiguous(files, path, |dates|)
    ensures BackupName(path, k) in files - Expired(Listing(path, dates), aged, now, _ => true) <==>
            k < |dates| && aged(dates[k]) > now
  {
    var list := Listing(path, dates);
    if k < |dates| {
      assert list[k] == (BackupName(path, k), dates[k]);
      forall i: nat | i < |dates| && BackupName(path, i) == BackupName(path, k)
        ensures i == k
      {
        if i != k { BackupNamesDiffer(path, i, k); }
      }
    }
  }

  /** So one deleteOld and one rotation leave the numbers in the order of age if and only if all
      backups were expired or none was. */
  lemma DeleteThenRotateKeepsAgeOrderIff(files: Files, path: string, dates: seq<int>, aged: int -> int, now: int,
                                         left: Files, n: nat, youngest: int)
    requires path in files && Contiguous(files, path, |dates|)
    requires forall i, j :: 0 <= i < j < |dates| ==> dates[i] <= dates[j]
    requires forall i :: 0 <= i < |dates| ==> dates[i] < youngest
    requires forall x, y :: x <= y ==> aged(x) <= aged(y)
    requires left == files - Expired(Listing(path, dates), aged, now, _ => true) && IsFirstFree(left, path, n)
    ensures path in left
    ensures InAgeOrder(Moved(left, path, BackupName(path, n)), path, DateOf(dates)[n := youngest])
            <==> dates == [] || aged(dates[|dates| - 1]) <= now || aged(dates[0]) > now
  {
    forall k: nat
      ensures BackupName(path, k) in left ==> k < |dates|
      ensures BackupName(path, k) != path
    {
      LeftAfterDelete(files, path, dates, aged, now, k);
      PathIsNoBackup(path, k);
    }
    DeleteLeavesNoGapIff(files, path, dates, aged, now);
    RotationKeepsAgeOrderIff(left, path, n, DateOf(dates), youngest);
  }

  function DateOf(dates: seq<int>): (r: map<nat, int>)
    ensures forall k: nat :: k in r <==> k < |dates|
    ensures forall k: nat :: k < |dates| ==> r[k] == dates[k]
  {
    map k: nat | k < |dates| :: dates[k]
  }

  /** After an old backup was deleted its name is free again, and the next rotation takes it: the
      numerical order of the backups is then no longer their age. */
  lemma GapIsReused(files: Files, path: string)
    requires path in files && BackupName(path, 0) !in files && BackupName(path, 1) in files
    ensures IsFirstFree(files, path, 0)
    ensures var files' := Moved(files, path, BackupName(path, 0));
            WholeLog(files', path, 2) == files[path] + files[BackupName(path, 1)]
  {
    var files' := Moved(files, path, BackupName(path, 0));
    BackupNamesDiffer(path, 0, 1);
    BackupNamesDiffer(path, 1, 0);
    assert BackedUp(files', path, 1) == BackedUp(files', path, 0) + files[path];
    assert BackedUp(files', path, 2) == BackedUp(files', path, 1) + files[BackupName(path, 1)];
    assert [] + files[path] == files[path];
  }
}
