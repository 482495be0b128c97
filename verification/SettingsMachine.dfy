/** Every interleaving of stores, removals, timer firings, concurrent save() calls, failing file
    operations and crashes. A save() is split where another thread or a crash can come in between:
    the unlocked check, taking the lock, and each file operation; recovery is split the same way. */
module SettingsMachine {
  import opened Collections
  import opened TransactionalSettings
  import opened SettingsKeys
  import opened SettingsStorage

  /** A save() call that has not returned. `snap` is m_data when it was called and `touched` the keys
      stored or removed since; both are bookkeeping for the statement about its result. */
  datatype Caller = Caller(fromTimer: bool, phase: CallPhase, snap: Data, touched: set<string>)

  datatype CallPhase = Checking | WaitingForLock | Syncing | Removing | Renaming

  /** In a running process `syncStale` says that the last sync() found a key in "_new" that m_data does
      not have, and `stale` that the sync() behind the last successful write did. */
  datatype Process =
    | Down
    | ReadingNew
    | RecoverRemove(res: Data)
    | RecoverRename(res: Data)
    | ReadingFinal
    | Running(m: Memory, callers: map<int, Caller>, stale: bool, syncStale: bool)

  datatype World = World(disk: Disk, p: Process)

  datatype Action =
    | Start
    | ReadNew
    | ReadRemove(ok: bool)
    | ReadRename(ok: bool)
    | ReadFinal
    | Crash
    | Store(key: string, value: string)
    | Remove(key: string)
    | CallSave(id: int)
    | TimerFires(id: int)
    | CheckDirty(id: int)
    | TakeLock(id: int)
    | Sync(id: int, ok: bool)
    | RemoveFinal(id: int, ok: bool)
    | Rename(id: int, ok: bool)

  predicate InSection(c: Caller) {
    c.phase.Syncing? || c.phase.Removing? || c.phase.Renaming?
  }

  predicate LockFree(callers: map<int, Caller>) {
    forall id :: id in callers ==> !InSection(callers[id])
  }

  predicate At(w: World, id: int, phase: CallPhase) {
    w.p.Running? && id in w.p.callers && w.p.callers[id].phase == phase
  }

  predicate Enabled(w: World, a: Action) {
    match a
    case Start => w.p.Down?
    case ReadNew => w.p.ReadingNew?
    case ReadRemove(_) => w.p.RecoverRemove?
    case ReadRename(_) => w.p.RecoverRename?
    case ReadFinal => w.p.ReadingFinal?
    case Crash => true
    case Store(_, _) => w.p.Running? && LockFree(w.p.callers)
    case Remove(_) => w.p.Running? && LockFree(w.p.callers)
    case CallSave(id) => w.p.Running? && id !in w.p.callers
    case TimerFires(id) => w.p.Running? && id !in w.p.callers && w.p.m.timer
    case CheckDirty(id) => At(w, id, Checking)
    case TakeLock(id) => At(w, id, WaitingForLock) && LockFree(w.p.callers)
    case Sync(id, _) => At(w, id, Syncing)
    case RemoveFinal(id, _) => At(w, id, Removing)
    case Rename(id, _) => At(w, id, Renaming)
  }

  function Touch(callers: map<int, Caller>, key: string): map<int, Caller> {
    map id | id in callers :: callers[id].(touched := callers[id].touched + {MapKey(key)})
  }

  function Advance(p: Process, id: int, phase: CallPhase): Process
    requires p.Running? && id in p.callers
  {
    p.(callers := p.callers[id := p.callers[id].(phase := phase)])
  }

  function Leave(p: Process, id: int, m: Memory): Process
    requires p.Running?
  {
    p.(m := m, callers := p.callers - {id})
  }

  function Step(w: World, a: Action): World
    requires Enabled(w, a)
  {
    match a
    case Start => w.(p := ReadingNew)
    case ReadNew => w.(p := if HasKeys(w.disk.newFile) then RecoverRemove(KeysOf(w.disk.newFile)) else ReadingFinal)
    case ReadRemove(ok) => World(FinalRemoved(w.disk, ok), RecoverRename(w.p.res))
    case ReadRename(ok) => World(Renamed(w.disk, ok), Running(Loaded(w.p.res), map[], false, false))
    case ReadFinal => w.(p := Running(Loaded(KeysOf(w.disk.finalFile)), map[], false, false))
    case Crash => w.(p := Down)
    case Store(key, value) =>
      w.(p := w.p.(m := Stored(w.p.m, key, value), callers := Touch(w.p.callers, key)))
    case Remove(key) =>
      w.(p := w.p.(m := RemovedKey(w.p.m, key), callers := Touch(w.p.callers, key)))
    case CallSave(id) =>
      w.(p := w.p.(callers := w.p.callers[id := Caller(false, Checking, w.p.m.data, {})]))
    case TimerFires(id) =>
      w.(p := w.p.(m := w.p.m.(timer := false),
                   callers := w.p.callers[id := Caller(true, Checking, w.p.m.data, {})]))
    case CheckDirty(id) =>
      w.(p := if w.p.m.dirty then Advance(w.p, id, WaitingForLock) else Leave(w.p, id, w.p.m))
    case TakeLock(id) =>
      w.(p := if w.p.m.dirty then Advance(w.p, id, Syncing) else Leave(w.p, id, w.p.m))
    case Sync(id, ok) =>
      if ok then
        World(Synced(w.disk, w.p.m.data, true),
              Advance(w.p, id, Removing).(syncStale := !(KeysOf(w.disk.newFile).Keys <= w.p.m.data.Keys)))
      else w.(p := Leave(w.p, id, SaveEnded(w.p.m, false)))
    case RemoveFinal(id, ok) => World(FinalRemoved(w.disk, ok), Advance(w.p, id, Renaming))
    case Rename(id, ok) =>
      World(Renamed(w.disk, ok), Leave(w.p, id, SaveEnded(w.p.m, CanRename(w.disk, ok)))
                                 .(stale := if CanRename(w.disk, ok) then w.p.syncStale else w.p.stale))
  }

  /** This step makes the call `id` return true. */
  predicate ReturnsTrue(w: World, a: Action, id: int) {
    || (a == CheckDirty(id) && w.p.Running? && !w.p.m.dirty)
    || (a == TakeLock(id) && w.p.Running? && !w.p.m.dirty)
    || (a.Rename? && a.id == id && CanRename(w.disk, a.ok))
  }

  // ----- invariant ------------------------------------------------------------------

  /** Every entry of `a` is in `b`. */
  predicate Within(a: Data, b: Data) {
    forall k :: k in a ==> k in b && b[k] == a[k]
  }

  /** The entries of a call's snapshot that were not stored or removed since are still in memory. */
  predicate SnapHolds(c: Caller, data: Data) {
    forall k :: k in c.snap && k !in c.touched ==> k in data && data[k] == c.snap[k]
  }

  /** At most one call is in the locked section. */
  predicate Exclusive(callers: map<int, Caller>) {
    forall i, j :: i in callers && j in callers && InSection(callers[i]) && InSection(callers[j]) ==> i == j
  }

  /** A call in the locked section works on a dirty memory, and past its sync() the "_new" file holds
      every entry of it. */
  predicate Prepared(disk: Disk, p: Process, c: Caller)
    requires p.Running?
  {
    InSection(c) ==>
      && p.m.dirty
      && (!c.phase.Syncing? ==>
            && (p.m.data != map[] ==> HasKeys(disk.newFile))
            && Within(p.m.data, KeysOf(disk.newFile))
            && (KeysOf(disk.newFile) == p.m.data <==> !p.syncStale))
  }

  predicate SectionInv(disk: Disk, p: Process)
    requires p.Running?
  {
    && Exclusive(p.callers)
    && forall i :: i in p.callers ==> Prepared(disk, p, p.callers[i])
  }

  /** A dirty memory always has a save coming: the timer is active or a call it started is pending. */
  predicate RetryInv(p: Process)
    requires p.Running?
  {
    p.m.dirty ==> p.m.timer || exists id :: id in p.callers && p.callers[id].fromTimer
  }

  predicate CleanInv(disk: Disk, p: Process)
    requires p.Running?
  {
    !p.m.dirty ==> Within(p.m.data, Rec(disk)) && (p.m.data == Rec(disk) <==> !p.stale)
  }

  predicate Inv(w: World) {
    match w.p
    case Down => true
    case ReadingNew => true
    case ReadingFinal => !HasKeys(w.disk.newFile)
    case RecoverRemove(res) => HasKeys(w.disk.newFile) && res == KeysOf(w.disk.newFile)
    case RecoverRename(res) => HasKeys(w.disk.newFile) && res == KeysOf(w.disk.newFile)
    case Running(m, callers, _, _) =>
      && SectionInv(w.disk, w.p)
      && RetryInv(w.p)
      && CleanInv(w.disk, w.p)
      && (forall id :: id in callers ==> SnapHolds(callers[id], m.data))
  }

  lemma SyncedKeys(d: Disk, data: Data)
    ensures KeysOf(Synced(d, data, true).newFile) == KeysOf(d.newFile) + data
    ensures Within(data, KeysOf(Synced(d, data, true).newFile))
    ensures KeysOf(Synced(d, data, true).newFile) == data <==> KeysOf(d.newFile).Keys <= data.Keys
    ensures data != map[] ==> HasKeys(Synced(d, data, true).newFile)
  {
    OverlayIsData(KeysOf(d.newFile), data);
    assert data == map[] ==> KeysOf(d.newFile) + data == KeysOf(d.newFile);
    if data != map[] {
      assert (KeysOf(d.newFile) + data).Keys == KeysOf(d.newFile).Keys + data.Keys;
      assert data.Keys != {};
      assert HasKeys(Synced(d, data, true).newFile) by {
        var k :| k in data;
        assert k in KeysOf(d.newFile) + data;
      }
    }
  }

  /** The call that will retry is still pending after the step, or the step re-armed the timer. */
  lemma RetryKept(w: World, a: Action)
    requires Enabled(w, a) && w.p.Running? && RetryInv(w.p)
    ensures Step(w, a).p.Running? ==> RetryInv(Step(w, a).p)
  {
    var w' := Step(w, a);
    if w'.p.Running? && w'.p.m.dirty && !w'.p.m.timer {
      if a.TimerFires? {
        assert a.id in w'.p.callers && w'.p.callers[a.id].fromTimer;
      } else {
        var i :| i in w.p.callers && w.p.callers[i].fromTimer;
        assert i in w'.p.callers && w'.p.callers[i].fromTimer;
      }
    }
  }

  lemma ExclusiveKept(w: World, a: Action)
    requires Enabled(w, a) && w.p.Running? && Exclusive(w.p.callers) && Step(w, a).p.Running?
    ensures Exclusive(Step(w, a).p.callers)
  {
  }

  /** Storing needs the lock, so nobody is inside. */
  lemma PreparedPastStore(w: World, a: Action, i: int)
    requires Enabled(w, a) && (a.Store? || a.Remove?) && i in Step(w, a).p.callers
    ensures Prepared(Step(w, a).disk, Step(w, a).p, Step(w, a).p.callers[i])
  {
    assert i in w.p.callers && !InSection(w.p.callers[i]);
  }

  /** A file operation is made by the one call inside. */
  lemma PreparedPastFile(w: World, a: Action, i: int)
    requires Enabled(w, a) && (a.Sync? || a.RemoveFinal? || a.Rename?) && Exclusive(w.p.callers)
    requires i in w.p.callers && Prepared(w.disk, w.p, w.p.callers[i]) && i in Step(w, a).p.callers
    ensures Prepared(Step(w, a).disk, Step(w, a).p, Step(w, a).p.callers[i])
  {
    assert InSection(w.p.callers[a.id]);
    if i == a.id {
      SyncedKeys(w.disk, w.p.m.data);
    }
  }

  lemma PreparedKept(w: World, a: Action, i: int)
    requires Enabled(w, a) && w.p.Running? && Exclusive(w.p.callers) && Step(w, a).p.Running?
    requires i in w.p.callers && Prepared(w.disk, w.p, w.p.callers[i]) && i in Step(w, a).p.callers
    ensures Prepared(Step(w, a).disk, Step(w, a).p, Step(w, a).p.callers[i])
  {
    match a
    case Store(_, _) => PreparedPastStore(w, a, i);
    case Remove(_) => PreparedPastStore(w, a, i);
    case Sync(_, _) => PreparedPastFile(w, a, i);
    case RemoveFinal(_, _) => PreparedPastFile(w, a, i);
    case Rename(_, _) => PreparedPastFile(w, a, i);
    case _ =>
  }

  lemma SectionKept(w: World, a: Action)
    requires Enabled(w, a) && w.p.Running? && SectionInv(w.disk, w.p) && Step(w, a).p.Running?
    ensures SectionInv(Step(w, a).disk, Step(w, a).p)
  {
    ExclusiveKept(w, a);
    forall i | i in Step(w, a).p.callers
      ensures Prepared(Step(w, a).disk, Step(w, a).p, Step(w, a).p.callers[i])
    {
      if i in w.p.callers {
        PreparedKept(w, a, i);
      }
    }
  }

  lemma CleanKept(w: World, a: Action)
    requires Inv(w) && Enabled(w, a) && w.p.Running? && Step(w, a).p.Running?
    ensures CleanInv(Step(w, a).disk, Step(w, a).p)
  {
    if a.Rename? {
      assert Prepared(w.disk, w.p, w.p.callers[a.id]);
    }
  }

  lemma SnapsKept(w: World, a: Action)
    requires Inv(w) && Enabled(w, a) && w.p.Running? && Step(w, a).p.Running?
    ensures forall id :: id in Step(w, a).p.callers ==> SnapHolds(Step(w, a).p.callers[id], Step(w, a).p.m.data)
  {
    var w' := Step(w, a);
    forall id | id in w'.p.callers
      ensures SnapHolds(w'.p.callers[id], w'.p.m.data)
    {
      assert id in w.p.callers ==> SnapHolds(w.p.callers[id], w.p.m.data);
    }
  }

  /** Every step keeps the invariant, crashes and failing file operations included. */
  lemma StepKeepsInv(w: World, a: Action)
    requires Inv(w) && Enabled(w, a)
    ensures Inv(Step(w, a))
  {
    if w.p.Running? && Step(w, a).p.Running? {
      RunningKeepsInv(w, a);
    } else if !w.p.Running? {
      RecoveryKeepsInv(w, a);
    }
  }

  lemma RunningKeepsInv(w: World, a: Action)
    requires Inv(w) && Enabled(w, a) && w.p.Running? && Step(w, a).p.Running?
    ensures Inv(Step(w, a))
  {
    RetryKept(w, a);
    SectionKept(w, a);
    CleanKept(w, a);
    SnapsKept(w, a);
  }

  lemma RecoveryKeepsInv(w: World, a: Action)
    requires Inv(w) && Enabled(w, a) && !w.p.Running?
    ensures Inv(Step(w, a))
  {
    if a.ReadRename? {
      LoadedInv(Step(w, a).disk, w.p.res);
    } else if a.ReadFinal? {
      LoadedInv(w.disk, KeysOf(w.disk.finalFile));
    }
  }

  lemma LoadedInv(disk: Disk, data: Data)
    requires data == Rec(disk)
    ensures Inv(World(disk, Running(Loaded(data), map[], false, false)))
  {
  }

  // ----- whole runs -----------------------------------------------------------------

  predicate LegalRun(w: World, run: seq<Action>)
    decreases |run|
  {
    run == [] || (Enabled(w, run[0]) && LegalRun(Step(w, run[0]), run[1..]))
  }

  function After(w: World, run: seq<Action>): World
    requires LegalRun(w, run)
    decreases |run|
  {
    if run == [] then w else After(Step(w, run[0]), run[1..])
  }

  lemma {:induction false} RunKeepsInv(w: World, run: seq<Action>)
    requires Inv(w) && LegalRun(w, run)
    ensures Inv(After(w, run))
    decreases |run|
  {
    if run != [] {
      StepKeepsInv(w, run[0]);
      RunKeepsInv(Step(w, run[0]), run[1..]);
    }
  }

  /** From any disk, in every reachable state: a dirty memory has a retry coming; with no call
      pending that retry is the armed timer; a clean memory is on disk, and equals what is recovered from
      there if and only if the sync() behind the last successful write, if there was one in this
      process, found no key in "_new" that was missing in m_data. */
  lemma ReachableMemory(disk: Disk, run: seq<Action>)
    requires LegalRun(World(disk, Down), run)
    ensures var w := After(World(disk, Down), run);
            w.p.Running? ==>
              && RetryInv(w.p)
              && (w.p.m.dirty && w.p.callers == map[] ==> w.p.m.timer)
              && (!w.p.m.dirty ==> Within(w.p.m.data, Rec(w.disk)))
              && (!w.p.m.dirty ==> (w.p.m.data == Rec(w.disk) <==> !w.p.stale))
  {
    RunKeepsInv(World(disk, Down), run);
  }

  /** Past its sync(), a call keeps everyone else from changing m_data and from writing. */
  lemma {:induction false} WriterAlone(w: World, run: seq<Action>, id: int)
    requires Inv(w) && LegalRun(w, run) && Pending(w, run, id)
    requires InSection(w.p.callers[id]) && !w.p.callers[id].phase.Syncing?
    ensures var p := After(w, run).p;
            p.Running? && p.m.data == w.p.m.data && p.syncStale == w.p.syncStale
    decreases |run|
  {
    if run != [] {
      WriterStep(w, run[0], id);
      StepKeepsInv(w, run[0]);
      WriterAlone(Step(w, run[0]), run[1..], id);
    }
  }

  lemma WriterStep(w: World, a: Action, id: int)
    requires Inv(w) && Enabled(w, a) && w.p.Running? && id in w.p.callers
    requires InSection(w.p.callers[id]) && !w.p.callers[id].phase.Syncing?
    requires Step(w, a).p.Running? && id in Step(w, a).p.callers
    ensures var p := Step(w, a).p;
            && p.m.data == w.p.m.data && p.syncStale == w.p.syncStale
            && InSection(p.callers[id]) && !p.callers[id].phase.Syncing?
  {
    assert !LockFree(w.p.callers);
    if a.Sync? || a.RemoveFinal? || a.Rename? {
      assert InSection(w.p.callers[a.id]);
    }
  }

  /** What `stale` says after a successful write is what its sync() found. */
  lemma StaleIsWhatSyncFound(w: World, id: int, between: seq<Action>)
    requires Inv(w) && At(w, id, Syncing) && LegalRun(Step(w, Sync(id, true)), between)
    requires Pending(Step(w, Sync(id, true)), between, id)
    requires var w' := After(Step(w, Sync(id, true)), between);
             Enabled(w', Rename(id, true)) && CanRename(w'.disk, true)
    ensures var p := Step(After(Step(w, Sync(id, true)), between), Rename(id, true)).p;
            && p.Running? && !p.m.dirty && p.m.data == w.p.m.data
            && (p.stale <==> !(KeysOf(w.disk.newFile).Keys <= w.p.m.data.Keys))
  {
    StepKeepsInv(w, Sync(id, true));
    WriterAlone(Step(w, Sync(id, true)), between, id);
  }

  /** When save() returns true, every entry of m_data at the call that was not stored or removed
      since is on disk. */
  lemma TrueSaveIsOnDisk(w: World, a: Action, id: int)
    requires Inv(w) && Enabled(w, a) && ReturnsTrue(w, a, id)
    ensures id in w.p.callers
    ensures forall k :: k in w.p.callers[id].snap && k !in w.p.callers[id].touched ==>
                          k in Rec(Step(w, a).disk) && Rec(Step(w, a).disk)[k] == w.p.callers[id].snap[k]
  {
    StepKeepsInv(w, a);
    assert SnapHolds(w.p.callers[id], w.p.m.data);
    assert Step(w, a).p.m.data == w.p.m.data && !Step(w, a).p.m.dirty;
  }

  /** The call `id` has not returned, nor died in a crash, at any point of the run. */
  predicate Pending(w: World, run: seq<Action>, id: int)
    requires LegalRun(w, run)
    decreases |run|
  {
    && w.p.Running? && id in w.p.callers
    && (run == [] || Pending(Step(w, run[0]), run[1..], id))
  }

  /** The bookkeeping of a call is what it claims: `snap` is m_data at the call, and `touched` covers
      every store and removal since. */
  lemma {:induction false} TouchedCovers(w: World, run: seq<Action>, id: int)
    requires LegalRun(w, run) && Pending(w, run, id)
    ensures var p := After(w, run).p;
            && p.Running? && id in p.callers && p.callers[id].snap == w.p.callers[id].snap
            && forall k :: k in p.callers[id].touched <==>
                             k in w.p.callers[id].touched
                             || exists a :: a in run && (a.Store? || a.Remove?) && MapKey(a.key) == k
    decreases |run|
  {
    if run != [] {
      var w' := Step(w, run[0]);
      assert run[0] in run;
      TouchedCovers(w', run[1..], id);
      assert forall a :: a in run <==> a == run[0] || a in run[1..];
    }
  }

  /** The same over whole runs, from any disk: save() is called after `before`, further steps follow,
      and step `a` makes it return true. Whatever was in m_data at the call, and was not stored or
      removed again meanwhile, is then on disk. */
  lemma TrueSaveCoversEarlierStores(disk: Disk, before: seq<Action>, id: int, between: seq<Action>, a: Action,
                                    key: string)
    requires LegalRun(World(disk, Down), before)
    requires Enabled(After(World(disk, Down), before), CallSave(id))
    requires var called := Step(After(World(disk, Down), before), CallSave(id));
             LegalRun(called, between) && Pending(called, between, id)
             && Enabled(After(called, between), a) && ReturnsTrue(After(called, between), a, id)
    requires key in After(World(disk, Down), before).p.m.data
    requires forall b :: b in between && (b.Store? || b.Remove?) ==> MapKey(b.key) != key
    ensures var w := After(World(disk, Down), before);
            var w' := Step(After(Step(w, CallSave(id)), between), a);
            key in Rec(w'.disk) && Rec(w'.disk)[key] == w.p.m.data[key]
  {
    var w := After(World(disk, Down), before);
    var called := Step(w, CallSave(id));
    RunKeepsInv(World(disk, Down), before);
    StepKeepsInv(w, CallSave(id));
    RunKeepsInv(called, between);
    TouchedCovers(called, between, id);
    TrueSaveIsOnDisk(After(called, between), a, id);
  }

  /** Only a change of the memory makes it dirty, and only a write that succeeds clean again; a change and
      a failed write arm the timer, which is off once it has fired. */
  lemma DirtyAndTimer(w: World, a: Action)
    requires Enabled(w, a) && w.p.Running? && Step(w, a).p.Running?
    ensures var m, m' := w.p.m, Step(w, a).p.m;
            && (m'.data != m.data ==> a.Store? || a.Remove?)
            && (m'.dirty <==> m'.data != m.data || (m.dirty && !(a.Rename? && CanRename(w.disk, a.ok))))
            && (m'.timer <==>
                 || (m.timer && !a.TimerFires?) || m'.data != m.data
                 || (a.Sync? && !a.ok) || (a.Rename? && !CanRename(w.disk, a.ok)))
  {
    match a
    case Store(key, value) => StoreChanges(w.p.m, key, value);
    case Remove(key) => assert MapKey(key) in w.p.m.data ==> MapKey(key) !in RemovedKey(w.p.m, key).data;
    case _ =>
  }

  lemma StoreChanges(m: Memory, key: string, value: string)
    ensures Stored(m, key, value).data == m.data <==> Stored(m, key, value) == m
    ensures Stored(m, key, value) != m ==> Stored(m, key, value).dirty && Stored(m, key, value).timer
  {
    var cell := MapKey(key);
    assert cell in m.data && m.data[cell] == value ==> m.data[cell := value] == m.data;
    assert Stored(m, key, value).data == m.data ==> cell in m.data && m.data[cell] == value;
  }

  // ----- what a step does to the recoverable settings --------------------------------

  /** The settings a reader of the disk would recover change in one step only: when a sync()
      succeeds, and then to the data laid over the leftover "_new" keys. The other exception is the
      remove step of a write that had nothing to commit. */
  lemma RecStep(w: World, a: Action)
    requires Inv(w) && Enabled(w, a)
    ensures Rec(Step(w, a).disk) ==
            if a.Sync? && a.ok && Committed(w.disk, w.p.m.data) != map[] then Committed(w.disk, w.p.m.data)
            else if a.RemoveFinal? && a.ok && !HasKeys(w.disk.newFile) then map[]
            else Rec(w.disk)
    ensures a.RemoveFinal? && !HasKeys(w.disk.newFile) ==> w.p.m.data == map[]
  {
    if a.Sync? || a.RemoveFinal? || a.Rename? {
      RecWriteStep(w, a);
    } else if a.ReadRemove? || a.ReadRename? {
      RecReadStep(w, a);
    }
  }

  lemma RecWriteStep(w: World, a: Action)
    requires Inv(w) && Enabled(w, a) && (a.Sync? || a.RemoveFinal? || a.Rename?)
    ensures Rec(Step(w, a).disk) ==
            if a.Sync? && a.ok && Committed(w.disk, w.p.m.data) != map[] then Committed(w.disk, w.p.m.data)
            else if a.RemoveFinal? && a.ok && !HasKeys(w.disk.newFile) then map[]
            else Rec(w.disk)
    ensures a.RemoveFinal? && !HasKeys(w.disk.newFile) ==> w.p.m.data == map[]
  {
    assert Prepared(w.disk, w.p, w.p.callers[a.id]);
    if a.Sync? {
      RecSynced(w.disk, w.p.m.data);
    }
  }

  lemma RecSynced(d: Disk, data: Data)
    ensures Rec(Synced(d, data, true)) == if Committed(d, data) != map[] then Committed(d, data) else Rec(d)
  {
    SyncedKeys(d, data);
    assert data == map[] ==> Committed(d, data) == KeysOf(d.newFile);
  }

  lemma RecReadStep(w: World, a: Action)
    requires Inv(w) && Enabled(w, a) && (a.ReadRemove? || a.ReadRename?)
    ensures Rec(Step(w, a).disk) == Rec(w.disk)
  {
  }

  /** What this step commits, if anything: a successful sync() the data laid over "_new", and, when that
      left nothing in "_new", the remove step the empty data. */
  function Commit(w: World, a: Action): Option<Data>
    requires Enabled(w, a)
  {
    if a.Sync? && a.ok && Committed(w.disk, w.p.m.data) != map[] then Some(Committed(w.disk, w.p.m.data))
    else if a.RemoveFinal? && a.ok && !HasKeys(w.disk.newFile) then Some(map[])
    else None
  }

  /** An empty commit is what the write was given. */
  lemma EmptyCommitIsMemory(w: World, a: Action)
    requires Inv(w) && Enabled(w, a) && Commit(w, a) == Some(map[])
    ensures w.p.Running? && w.p.m.data == map[]
  {
    RecStep(w, a);
  }

  /** What a run committed, in order. */
  function Commits(w: World, run: seq<Action>): seq<Data>
    requires LegalRun(w, run)
    decreases |run|
  {
    if run == [] then []
    else CommitOf(w, run[0]) + Commits(Step(w, run[0]), run[1..])
  }

  function CommitOf(w: World, a: Action): seq<Data>
    requires Enabled(w, a)
  {
    match Commit(w, a) case Some(data) => [data] case None => []
  }

  lemma RecAfterStep(w: World, a: Action)
    requires Inv(w) && Enabled(w, a)
    ensures Rec(Step(w, a).disk) == match Commit(w, a) case Some(data) => data case None => Rec(w.disk)
  {
    RecStep(w, a);
  }

  /** Over every legal run - failed and empty saves, crashes between any two file operations, recoveries
      cut short - a reader recovers the last committed data, and what was there before when nothing was
      committed. */
  lemma {:induction false} RecIsLastCommit(w: World, run: seq<Action>)
    requires Inv(w) && LegalRun(w, run)
    ensures var commits := Commits(w, run);
            Rec(After(w, run).disk) == if commits == [] then Rec(w.disk) else commits[|commits| - 1]
    decreases |run|
  {
    if run != [] {
      var w', rest := Step(w, run[0]), run[1..];
      RecAfterStep(w, run[0]);
      StepKeepsInv(w, run[0]);
      RecIsLastCommit(w', rest);
      var first := CommitOf(w, run[0]);
      LastInTwo(first, Commits(w', rest));
      assert Commits(w, run) == first + Commits(w', rest);
    }
  }

  lemma LastInTwo<T>(a: seq<T>, b: seq<T>)
    ensures b != [] ==> a + b != [] && (a + b)[|a + b| - 1] == b[|b| - 1]
    ensures b == [] ==> a + b == a
  {
  }

  /** When recovery hands over to the running process, its memory is exactly what the disk recovers,
      before and after the hand-over. */
  lemma RecoveryLoadsRec(w: World, a: Action)
    requires Inv(w) && Enabled(w, a) && !w.p.Running? && Step(w, a).p.Running?
    ensures Step(w, a).p.m == Loaded(Rec(w.disk))
    ensures Rec(Step(w, a).disk) == Rec(w.disk)
  {
    RecStep(w, a);
  }

  /** After a true save, through any crashes and recoveries without a further sync(), a reader of the
      disk gets every saved entry. */
  lemma SavedSurvivesRestart(w: World, a: Action, id: int, run: seq<Action>, key: string)
    requires Inv(w) && Enabled(w, a) && ReturnsTrue(w, a, id) && LegalRun(Step(w, a), run)
    requires Commits(Step(w, a), run) == []
    requires id in w.p.callers && key in w.p.callers[id].snap && key !in w.p.callers[id].touched
    ensures var d := After(Step(w, a), run).disk; key in Rec(d) && Rec(d)[key] == w.p.callers[id].snap[key]
  {
    TrueSaveIsOnDisk(w, a, id);
    StepKeepsInv(w, a);
    RecIsLastCommit(Step(w, a), run);
  }

  // ----- the sequential save() is one run of the machine ------------------------------

  /** The file operations of the locked section. */
  function LockedRun(id: int, luck: Luck): seq<Action> {
    if !luck.sync then [Sync(id, false)]
    else [Sync(id, true), RemoveFinal(id, luck.remove), Rename(id, luck.rename)]
  }

  function SaveRun(id: int, dirty: bool, luck: Luck): seq<Action> {
    if !dirty then [CallSave(id), CheckDirty(id)]
    else [CallSave(id), CheckDirty(id), TakeLock(id)] + LockedRun(id, luck)
  }

  /** Run without interruption, the split save() has the effect of the whole one. */
  lemma UninterruptedSave(w: World, id: int, luck: Luck)
    requires w.p.Running? && w.p.callers == map[]
    ensures LegalRun(w, SaveRun(id, w.p.m.dirty, luck))
    ensures var w' := After(w, SaveRun(id, w.p.m.dirty, luck));
            && w'.p.Running? && w'.p.callers == map[]
            && (if w.p.m.dirty then
                  w'.p.m == SaveEnded(w.p.m, WriteSucceeds(w.disk, w.p.m.data, luck))
                  && w'.disk == Last(WriteTrace(w.disk, w.p.m.data, luck), w.disk)
                else w'.p.m == w.p.m && w'.disk == w.disk)
  {
    Called(w, id);
    if w.p.m.dirty {
      var w1 := Step(w, CallSave(id));
      DirtySave(w1, id, luck);
      RunCons(w, CallSave(id), [CheckDirty(id), TakeLock(id)] + LockedRun(id, luck));
      assert SaveRun(id, true, luck) == [CallSave(id)] + ([CheckDirty(id), TakeLock(id)] + LockedRun(id, luck));
    } else {
      CleanSave(w, id);
    }
  }

  lemma Called(w: World, id: int)
    requires w.p.Running? && w.p.callers == map[]
    ensures var w1 := Step(w, CallSave(id));
            && At(w1, id, Checking) && w1.p.callers.Keys == {id} && w1.p.m == w.p.m && w1.disk == w.disk
            && w1.p.callers - {id} == map[]
  {
  }

  lemma CleanSave(w: World, id: int)
    requires w.p.Running? && w.p.callers == map[] && !w.p.m.dirty
    ensures LegalRun(w, [CallSave(id), CheckDirty(id)])
    ensures var w' := After(w, [CallSave(id), CheckDirty(id)]);
            w'.p.Running? && w'.p.callers == map[] && w'.p.m == w.p.m && w'.disk == w.disk
  {
    Called(w, id);
    var w1 := Step(w, CallSave(id));
    RunCons(w1, CheckDirty(id), []);
    RunCons(w, CallSave(id), [CheckDirty(id)]);
  }

  lemma DirtySave(w: World, id: int, luck: Luck)
    requires At(w, id, Checking) && w.p.callers.Keys == {id} && w.p.m.dirty
    ensures var run := [CheckDirty(id), TakeLock(id)] + LockedRun(id, luck);
            && LegalRun(w, run) && After(w, run).p.Running? && After(w, run).p.callers == map[]
            && After(w, run).p.m == SaveEnded(w.p.m, WriteSucceeds(w.disk, w.p.m.data, luck))
            && After(w, run).disk == Last(WriteTrace(w.disk, w.p.m.data, luck), w.disk)
  {
    var w1 := Step(w, CheckDirty(id));
    assert LockFree(w1.p.callers);
    var w2 := Step(w1, TakeLock(id));
    SavePastLock(w2, id, luck);
    RunCons(w1, TakeLock(id), LockedRun(id, luck));
    RunCons(w, CheckDirty(id), [TakeLock(id)] + LockedRun(id, luck));
    assert [CheckDirty(id)] + ([TakeLock(id)] + LockedRun(id, luck)) ==
           [CheckDirty(id), TakeLock(id)] + LockedRun(id, luck);
  }

  lemma SavePastLock(w: World, id: int, luck: Luck)
    requires At(w, id, Syncing) && w.p.callers.Keys == {id}
    ensures var run := LockedRun(id, luck);
            && LegalRun(w, run) && After(w, run).p.Running? && After(w, run).p.callers == map[]
            && After(w, run).p.m == SaveEnded(w.p.m, WriteSucceeds(w.disk, w.p.m.data, luck))
            && After(w, run).disk == Last(WriteTrace(w.disk, w.p.m.data, luck), w.disk)
  {
    var w1 := Step(w, Sync(id, luck.sync));
    if luck.sync {
      SavePastSync(w1, id, luck);
      RunCons(w, Sync(id, true), [RemoveFinal(id, luck.remove)] + [Rename(id, luck.rename)]);
      assert LockedRun(id, luck) == [Sync(id, true)] + ([RemoveFinal(id, luck.remove)] + [Rename(id, luck.rename)]);
    } else {
      RunCons(w, Sync(id, false), []);
    }
  }

  lemma SavePastSync(w: World, id: int, luck: Luck)
    requires At(w, id, Removing) && w.p.callers.Keys == {id}
    ensures var run := [RemoveFinal(id, luck.remove)] + [Rename(id, luck.rename)];
            var removed := FinalRemoved(w.disk, luck.remove);
            && LegalRun(w, run) && After(w, run).p.Running? && After(w, run).p.callers == map[]
            && After(w, run).p.m == SaveEnded(w.p.m, CanRename(removed, luck.rename))
            && After(w, run).disk == Renamed(removed, luck.rename)
  {
    var w1 := Step(w, RemoveFinal(id, luck.remove));
    RunCons(w1, Rename(id, luck.rename), []);
    RunCons(w, RemoveFinal(id, luck.remove), [Rename(id, luck.rename)]);
  }

  lemma RunCons(w: World, a: Action, rest: seq<Action>)
    requires Enabled(w, a) && LegalRun(Step(w, a), rest)
    ensures LegalRun(w, [a] + rest) && After(w, [a] + rest) == After(Step(w, a), rest)
  {
    assert ([a] + rest)[1..] == rest;
  }

  lemma {:induction false} RunsCompose(w: World, a: seq<Action>, b: seq<Action>)
    requires LegalRun(w, a) && LegalRun(After(w, a), b)
    ensures LegalRun(w, a + b) && After(w, a + b) == After(After(w, a), b)
    decreases |a|
  {
    if a == [] {
      assert a + b == b;
    } else {
      assert (a + b)[0] == a[0] && (a + b)[1..] == a[1..] + b;
      RunsCompose(Step(w, a[0]), a[1..], b);
    }
  }

  /** Started without interruption, the split recovery has the effect of the constructor. */
  lemma UninterruptedRecovery(w: World, luck: Luck) returns (run: seq<Action>)
    requires w.p.Down?
    ensures LegalRun(w, run)
    ensures After(w, run).p == Running(Memory(Rec(w.disk), false, false), map[], false, false)
    ensures After(w, run).disk == Last(ReadTrace(w.disk, luck), w.disk)
  {
    var w1 := Step(w, Start);
    var w2 := Step(w1, ReadNew);
    if HasKeys(w.disk.newFile) {
      var w3 := Step(w2, ReadRemove(luck.remove));
      RunCons(w3, ReadRename(luck.rename), []);
      RunCons(w2, ReadRemove(luck.remove), [ReadRename(luck.rename)] + []);
      run := [ReadRemove(luck.remove)] + ([ReadRename(luck.rename)] + []);
    } else {
      RunCons(w2, ReadFinal, []);
      run := [ReadFinal] + [];
    }
    RunCons(w1, ReadNew, run);
    RunCons(w, Start, [ReadNew] + run);
    run := [Start] + ([ReadNew] + run);
  }

  // ----- nobody waits for ever ---------------------------------------------------------

  /** Only the call `id` is gone. */
  predicate Returned(w: World, w': World, id: int) {
    w.p.Running? && w'.p.Running? && w'.p.callers == w.p.callers - {id}
  }

  /** The call that holds the lock can go on to its end, whatever its file operations do. */
  lemma HolderReturns(w: World, id: int, luck: Luck) returns (run: seq<Action>)
    requires w.p.Running? && id in w.p.callers && InSection(w.p.callers[id])
    ensures LegalRun(w, run) && |run| <= 3 && Returned(w, After(w, run), id)
  {
    var c := w.p.callers;
    match c[id].phase
    case Syncing =>
      var w1 := Step(w, Sync(id, luck.sync));
      run := [];
      if luck.sync {
        run := HolderReturnsPastSync(w1, id, luck);
        assert w1.p.callers - {id} == c - {id};
      }
      RunCons(w, Sync(id, luck.sync), run);
      run := [Sync(id, luck.sync)] + run;
    case _ =>
      run := HolderReturnsPastSync(w, id, luck);
  }

  lemma HolderReturnsPastSync(w: World, id: int, luck: Luck) returns (run: seq<Action>)
    requires w.p.Running? && id in w.p.callers
    requires w.p.callers[id].phase.Removing? || w.p.callers[id].phase.Renaming?
    ensures LegalRun(w, run) && |run| <= 2 && Returned(w, After(w, run), id)
  {
    var rename := Rename(id, luck.rename);
    if w.p.callers[id].phase.Renaming? {
      RunCons(w, rename, []);
      run := [rename] + [];
    } else {
      var w1 := Step(w, RemoveFinal(id, luck.remove));
      assert w1.p.callers - {id} == w.p.callers - {id};
      RunCons(w1, rename, []);
      RunCons(w, RemoveFinal(id, luck.remove), [rename] + []);
      run := [RemoveFinal(id, luck.remove)] + ([rename] + []);
    }
  }

  /** With the lock free, a waiting call takes it, finds the memory clean and returns, or goes on. */
  lemma WaitingReturns(w: World, id: int, luck: Luck) returns (run: seq<Action>)
    requires At(w, id, WaitingForLock) && LockFree(w.p.callers)
    ensures LegalRun(w, run) && |run| <= 4 && Returned(w, After(w, run), id)
  {
    var w1 := Step(w, TakeLock(id));
    run := [];
    if w.p.m.dirty {
      run := HolderReturns(w1, id, luck);
      assert w1.p.callers - {id} == w.p.callers - {id};
    }
    RunCons(w, TakeLock(id), run);
    run := [TakeLock(id)] + run;
  }

  /** No deadlock: from every reachable state and without a crash, every pending call can be led to its
      return in at most eight steps, whatever the file operations do; only the call that held the lock
      goes with it. */
  lemma EveryCallReturns(w: World, id: int, luck: Luck) returns (run: seq<Action>)
    requires Inv(w) && w.p.Running? && id in w.p.callers
    ensures LegalRun(w, run) && |run| <= 8
    ensures var w' := After(w, run);
            && w'.p.Running? && id !in w'.p.callers
            && forall i :: i in w.p.callers && i != id && !InSection(w.p.callers[i]) ==> i in w'.p.callers
  {
    if InSection(w.p.callers[id]) {
      run := HolderReturns(w, id, luck);
    } else if w.p.callers[id].phase.Checking? {
      var w1 := Step(w, CheckDirty(id));
      run := [];
      if w.p.m.dirty {
        StepKeepsInv(w, CheckDirty(id));
        run := WaiterReturns(w1, id, luck);
      }
      RunCons(w, CheckDirty(id), run);
      run := [CheckDirty(id)] + run;
    } else {
      run := WaiterReturns(w, id, luck);
    }
  }

  lemma WaiterReturns(w: World, id: int, luck: Luck) returns (run: seq<Action>)
    requires Inv(w) && At(w, id, WaitingForLock)
    ensures LegalRun(w, run) && |run| <= 7
    ensures var w' := After(w, run);
            && w'.p.Running? && id !in w'.p.callers
            && forall i :: i in w.p.callers && i != id && !InSection(w.p.callers[i]) ==> i in w'.p.callers
  {
    if LockFree(w.p.callers) {
      run := WaitingReturns(w, id, luck);
    } else {
      var holder :| holder in w.p.callers && InSection(w.p.callers[holder]);
      var first := HolderReturns(w, holder, luck);
      var w1 := After(w, first);
      assert At(w1, id, WaitingForLock);
      forall i | i in w1.p.callers
        ensures !InSection(w1.p.callers[i])
      {
        assert w1.p.callers[i] == w.p.callers[i];
      }
      var rest := WaitingReturns(w1, id, luck);
      RunsCompose(w, first, rest);
      run := first + rest;
    }
  }

  // ----- a removed key comes back ---------------------------------------------------------

  /** Store a key, save with a failing rename, remove the key, save again. */
  function SavesRun(key: string, value: string): seq<Action> {
    StoringRun(key, value) + FailingRun(key) + SaveRun(2, true, Luck(true, true, true))
  }

  function FailingRun(key: string): seq<Action> {
    SaveRun(1, true, Luck(true, true, false)) + [Remove(key)]
  }

  function StoringRun(key: string, value: string): seq<Action> {
    [Start, ReadNew, ReadFinal, Store(key, value)]
  }

  function OneStored(key: string, value: string): World {
    World(Disk(Absent, Absent), Running(Memory(map[MapKey(key) := value], true, true), map[], false, false))
  }

  lemma StoringRunEnds(key: string, value: string)
    ensures var w := World(Disk(Absent, Absent), Down);
            && LegalRun(w, StoringRun(key, value))
            && After(w, StoringRun(key, value))
               == OneStored(key, value)
  {
    var d := Disk(Absent, Absent);
    var loaded := World(d, Running(Loaded(map[]), map[], false, false));
    var stored := World(d, Running(Memory(map[MapKey(key) := value], true, true), map[], false, false));
    assert Step(loaded, Store(key, value)) == stored by {
      assert Touch(map[], key) == map[];
    }
    RunCons(loaded, Store(key, value), []);
    RunCons(World(d, ReadingFinal), ReadFinal, [Store(key, value)]);
    RunCons(World(d, ReadingNew), ReadNew, [ReadFinal, Store(key, value)]);
    RunCons(World(d, Down), Start, [ReadNew, ReadFinal, Store(key, value)]);
  }

  lemma RestartRunEnds(w: World, data: Data)
    requires w.disk == Disk(Absent, Present(data))
    ensures LegalRun(w, [Crash, Start, ReadNew, ReadFinal])
    ensures After(w, [Crash, Start, ReadNew, ReadFinal]) ==
            World(w.disk, Running(Loaded(data), map[], false, false))
  {
    RunCons(World(w.disk, ReadingFinal), ReadFinal, []);
    RunCons(World(w.disk, ReadingNew), ReadNew, [ReadFinal]);
    RunCons(World(w.disk, Down), Start, [ReadNew, ReadFinal]);
    RunCons(w, Crash, [Start, ReadNew, ReadFinal]);
  }

  /** Between the two saves the key leaves memory, but not the "_new" file. */
  lemma FailedThenRemoved(w: World, key: string, value: string)
    requires w == OneStored(key, value)
    ensures var run := FailingRun(key);
            && LegalRun(w, run)
            && After(w, run).disk == Disk(Present(map[MapKey(key) := value]), Absent)
            && After(w, run).p.Running? && After(w, run).p.m == Memory(map[], true, true)
            && After(w, run).p.callers == map[]
  {
    var luck := Luck(true, true, false);
    UninterruptedSave(w, 1, luck);
    var saved := After(w, SaveRun(1, true, luck));
    assert KeysOf(Absent) + map[MapKey(key) := value] == map[MapKey(key) := value];
    assert map[MapKey(key) := value] != map[] by { assert MapKey(key) in map[MapKey(key) := value]; }
    assert map[MapKey(key) := value] - {MapKey(key)} == map[];
    RunCons(saved, Remove(key), []);
    RunsCompose(w, SaveRun(1, true, luck), [Remove(key)]);
  }

  /** The second save succeeds and the process is clean and empty, yet the key is on disk. */
  lemma RemovedKeySaved(key: string, value: string)
    ensures var w := World(Disk(Absent, Absent), Down);
            && LegalRun(w, SavesRun(key, value)) && After(w, SavesRun(key, value)).p.Running?
            && After(w, SavesRun(key, value)).p.m == Loaded(map[]).(timer := true)
            && After(w, SavesRun(key, value)).disk == Disk(Absent, Present(map[MapKey(key) := value]))
  {
    var w := World(Disk(Absent, Absent), Down);
    StoringRunEnds(key, value);
    var w1 := After(w, StoringRun(key, value));
    FailedThenRemoved(w1, key, value);
    RunsCompose(w, StoringRun(key, value), FailingRun(key));
    var w2 := After(w1, FailingRun(key));
    UninterruptedSave(w2, 2, Luck(true, true, true));
    RunsCompose(w, StoringRun(key, value) + FailingRun(key), SaveRun(2, true, Luck(true, true, true)));
  }

  /** The memory differs from the disk, as `stale` says, and the next process loads the removed key. */
  lemma RemovedKeyReturns(key: string, value: string)
    ensures var w := World(Disk(Absent, Absent), Down);
            && LegalRun(w, SavesRun(key, value)) && After(w, SavesRun(key, value)).p.Running?
            && After(w, SavesRun(key, value)).p.m.data == map[] && After(w, SavesRun(key, value)).p.stale
            && Rec(After(w, SavesRun(key, value)).disk) == map[MapKey(key) := value]
            && LegalRun(w, SavesRun(key, value) + [Crash, Start, ReadNew, ReadFinal])
            && After(w, SavesRun(key, value) + [Crash, Start, ReadNew, ReadFinal]).p
               == Running(Loaded(map[MapKey(key) := value]), map[], false, false)
  {
    var w := World(Disk(Absent, Absent), Down);
    var data := map[MapKey(key) := value];
    RemovedKeySaved(key, value);
    var w3 := After(w, SavesRun(key, value));
    assert data != map[] by { assert MapKey(key) in data; }
    ReachableMemory(Disk(Absent, Absent), SavesRun(key, value));
    RestartRunEnds(w3, data);
    RunsCompose(w, SavesRun(key, value), [Crash, Start, ReadNew, ReadFinal]);
  }

  // ----- an emptied memory is never saved ---------------------------------------------------

  /** Nothing in memory, and no "_new" file. */
  predicate Emptied(w: World) {
    w.p.Running? && w.p.m.data == map[] && w.p.m.dirty && w.disk.newFile.Absent?
  }

  lemma EmptiedStep(w: World, a: Action)
    requires Emptied(w) && Enabled(w, a) && !a.Store? && !a.Crash?
    ensures Emptied(Step(w, a)) && forall id :: !ReturnsTrue(w, a, id)
  {
  }

  /** Until something is stored again, no save() of an emptied memory returns true, and it stays dirty:
      the retry timer keeps firing for nothing. */
  lemma {:induction false} EmptiedNeverSaved(w: World, run: seq<Action>)
    requires Emptied(w) && LegalRun(w, run) && forall a :: a in run ==> !a.Store? && !a.Crash?
    ensures Emptied(After(w, run))
    ensures forall a, id :: Enabled(After(w, run), a) ==> !ReturnsTrue(After(w, run), a, id)
    decreases |run|
  {
    if run != [] {
      assert run[0] in run;
      EmptiedStep(w, run[0]);
      EmptiedNeverSaved(Step(w, run[0]), run[1..]);
    }
  }

  /** Store a key, save it, remove it, and try to save. */
  function EmptyingRun(key: string, value: string): seq<Action> {
    StoringRun(key, value) + SaveRun(1, true, Luck(true, true, true)) + [Remove(key)]
  }

  /** Such a memory is reached, with the key in the final file; the save that follows removes that file
      and fails. */
  lemma EmptiedReached(key: string, value: string)
    ensures var w := World(Disk(Absent, Absent), Down);
            && LegalRun(w, EmptyingRun(key, value)) && Emptied(After(w, EmptyingRun(key, value)))
            && After(w, EmptyingRun(key, value)).disk == Disk(Absent, Present(map[MapKey(key) := value]))
    ensures var w := World(Disk(Absent, Absent), Down);
            var run := EmptyingRun(key, value) + SaveRun(2, true, Luck(true, true, true));
            LegalRun(w, run) && Emptied(After(w, run)) && After(w, run).disk == Disk(Absent, Absent)
  {
    var w := World(Disk(Absent, Absent), Down);
    var luck := Luck(true, true, true);
    StoringRunEnds(key, value);
    var w1 := After(w, StoringRun(key, value));
    UninterruptedSave(w1, 1, luck);
    FirstSave(w1, key, value);
    var w2 := After(w1, SaveRun(1, true, luck));
    RunsCompose(w, StoringRun(key, value), SaveRun(1, true, luck));
    RemoveOnly(w2, key, value);
    RunsCompose(w, StoringRun(key, value) + SaveRun(1, true, luck), [Remove(key)]);
    var w3 := After(w2, [Remove(key)]);
    UninterruptedSave(w3, 2, luck);
    RunsCompose(w, EmptyingRun(key, value), SaveRun(2, true, luck));
  }

  lemma FirstSave(w: World, key: string, value: string)
    requires w == OneStored(key, value)
    ensures WriteSucceeds(w.disk, w.p.m.data, Luck(true, true, true))
    ensures Last(WriteTrace(w.disk, w.p.m.data, Luck(true, true, true)), w.disk) == Disk(Absent, Present(w.p.m.data))
  {
    assert MapKey(key) in w.p.m.data;
    assert KeysOf(Absent) + w.p.m.data == w.p.m.data;
  }

  lemma RemoveOnly(w: World, key: string, value: string)
    requires w.p.Running? && w.p.callers == map[] && w.p.m.data == map[MapKey(key) := value]
    ensures LegalRun(w, [Remove(key)])
    ensures var w' := After(w, [Remove(key)]);
            && w'.p.Running? && w'.p.callers == map[] && w'.disk == w.disk
            && w'.p.m == Memory(map[], true, true)
  {
    assert map[MapKey(key) := value] - {MapKey(key)} == map[];
    RunCons(w, Remove(key), []);
  }
}
