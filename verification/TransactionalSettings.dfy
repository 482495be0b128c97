/** The two-file commit protocol of TransactionalSettings (src/base/settingsstorage.cpp).
    sync() is taken to replace the contents of the "_new" file all-or-nothing, and a file
    operation may fail. Every disk state in between is recorded, since a crash can hit it. */
module TransactionalSettings {

  /** A QVariantHash of valid values. */
  type Data = map<string, string>

  datatype File = Absent | Present(keys: Data)

  datatype Disk = Disk(newFile: File, finalFile: File)

  /** Which of the file operations the environment lets succeed. */
  datatype Luck = Luck(sync: bool, remove: bool, rename: bool)

  function KeysOf(f: File): Data {
    if f.Present? then f.keys else map[]
  }

  predicate HasKeys(f: File) {
    KeysOf(f) != map[]
  }

  /** What a reader of this disk recovers. */
  function Rec(d: Disk): Data {
    if HasKeys(d.newFile) then KeysOf(d.newFile) else KeysOf(d.finalFile)
  }

  // ----- single file operations -----------------------------------------------------

  /** QSettings opened on "_new" keeps the keys found there; without a key to set nothing is written. */
  function Synced(d: Disk, data: Data, ok: bool): Disk {
    if ok && data != map[] then d.(newFile := Present(KeysOf(d.newFile) + data)) else d
  }

  function FinalRemoved(d: Disk, ok: bool): Disk {
    if ok then d.(finalFile := Absent) else d
  }

  /** QFile::rename refuses a missing source and an existing target. */
  predicate CanRename(d: Disk, ok: bool) {
    ok && d.newFile.Present? && d.finalFile.Absent?
  }

  function Renamed(d: Disk, ok: bool): Disk {
    if CanRename(d, ok) then Disk(Absent, d.newFile) else d
  }

  // ----- whole calls ----------------------------------------------------------------

  /** The disk after write(), call by call; an unsuccessful sync() ends the call. */
  function WriteTrace(d: Disk, data: Data, luck: Luck): (tr: seq<Disk>)
    ensures tr != []
  {
    var d1 := Synced(d, data, luck.sync);
    if !luck.sync then [d1]
    else
      var d2 := FinalRemoved(d1, luck.remove);
      [d1, d2, Renamed(d2, luck.rename)]
  }

  predicate WriteSucceeds(d: Disk, data: Data, luck: Luck) {
    luck.sync && CanRename(FinalRemoved(Synced(d, data, true), luck.remove), luck.rename)
  }

  function ReadTrace(d: Disk, luck: Luck): seq<Disk> {
    if HasKeys(d.newFile) then
      var d1 := FinalRemoved(d, luck.remove);
      [d1, Renamed(d1, luck.rename)]
    else []
  }

  function Last(tr: seq<Disk>, d: Disk): Disk {
    if tr == [] then d else tr[|tr| - 1]
  }

  /** The two settings files; `trace` records the disk after every operation on it. */
  class SettingsFiles {
    var newFile: File
    var finalFile: File
    ghost var trace: seq<Disk>

    constructor (newFile: File, finalFile: File)
      ensures View() == Disk(newFile, finalFile) && trace == []
    {
      this.newFile, this.finalFile := newFile, finalFile;
      trace := [];
    }

    function View(): Disk
      reads `newFile, `finalFile
    {
      Disk(newFile, finalFile)
    }

    method SyncNew(data: Data, ok: bool) returns (noError: bool)
      modifies this
      ensures noError == ok && View() == Synced(old(View()), data, ok) && trace == old(trace) + [View()]
    {
      if ok && data != map[] {
        newFile := Present(KeysOf(newFile) + data);
      }
      noError := ok;
      trace := trace + [View()];
    }

    method ForceRemoveFinal(ok: bool)
      modifies this
      ensures View() == FinalRemoved(old(View()), ok) && trace == old(trace) + [View()]
    {
      if ok {
        finalFile := Absent;
      }
      trace := trace + [View()];
    }

    method RenameNewToFinal(ok: bool) returns (success: bool)
      modifies this
      ensures success == CanRename(old(View()), ok)
      ensures View() == Renamed(old(View()), ok) && trace == old(trace) + [View()]
    {
      success := ok && newFile.Present? && finalFile.Absent?;
      if success {
        newFile, finalFile := Absent, newFile;
      }
      trace := trace + [View()];
    }

    /** TransactionalSettings::write. After a failed serialize the path passed to forceRemove is
        empty, so nothing is removed. */
    method Write(data: Data, luck: Luck) returns (success: bool)
      modifies this
      ensures success == WriteSucceeds(old(View()), data, luck)
      ensures trace == old(trace) + WriteTrace(old(View()), data, luck)
      ensures View() == Last(WriteTrace(old(View()), data, luck), old(View()))
    {
      var noError := SyncNew(data, luck.sync);
      if !noError {
        return false;
      }
      ForceRemoveFinal(luck.remove);
      success := RenameNewToFinal(luck.rename);
    }

    /** TransactionalSettings::read. */
    method Read(luck: Luck) returns (res: Data)
      modifies this
      ensures res == Rec(old(View()))
      ensures trace == old(trace) + ReadTrace(old(View()), luck)
      ensures View() == Last(ReadTrace(old(View()), luck), old(View()))
    {
      res := KeysOf(newFile);
      if res != map[] {
        ForceRemoveFinal(luck.remove);
        var renamed := RenameNewToFinal(luck.rename);
      } else {
        res := KeysOf(finalFile);
      }
    }
  }

  // ----- what a crash can see -------------------------------------------------------

  /** What a write commits: the data laid over whatever "_new" already held. */
  function Committed(d: Disk, data: Data): Data {
    KeysOf(d.newFile) + data
  }

  /** Whichever step a write is cut off after, the disk recovers either the committed data or, when
      sync() failed, what it recovered before. */
  lemma WriteIsAtomic(d: Disk, data: Data, luck: Luck, k: nat)
    requires k < |WriteTrace(d, data, luck)|
    requires Committed(d, data) != map[]
    ensures Rec(WriteTrace(d, data, luck)[k]) == if luck.sync then Committed(d, data) else Rec(d)
  {
    assert data == map[] ==> KeysOf(d.newFile) + data == KeysOf(d.newFile);
  }

  /** A write succeeds if and only if every step does and there is something to rename: data to put into
      "_new", or a file of that name left over. */
  lemma WriteSucceedsIff(d: Disk, data: Data, luck: Luck)
    ensures WriteSucceeds(d, data, luck) <==>
            && luck.sync && (luck.remove || d.finalFile.Absent?) && luck.rename
            && (d.newFile.Present? || data != map[])
  {
  }

  /** With nothing to commit it is the remove step that takes effect: the disk then recovers the empty
      data the write was given, although without a "_new" file the write fails. Every step leaves what
      is recovered alone if and only if the sync or the remove fails, or there was nothing. */
  lemma EmptyWriteFails(d: Disk, luck: Luck)
    requires !HasKeys(d.newFile)
    ensures d.newFile.Absent? ==> !WriteSucceeds(d, map[], luck)
    ensures Rec(Last(WriteTrace(d, map[], luck), d)) == if luck.sync && luck.remove then map[] else Rec(d)
    ensures (forall k :: 0 <= k < |WriteTrace(d, map[], luck)| ==> Rec(WriteTrace(d, map[], luck)[k]) == Rec(d))
            <==> !luck.sync || !luck.remove || !HasKeys(d.finalFile)
  {
    var tr := WriteTrace(d, map[], luck);
    if luck.sync && luck.remove {
      assert Rec(tr[1]) == map[];
    }
  }

  /** A successful write leaves no "_new" file behind, and exactly the committed data. That is the data
      given if and only if no leftover "_new" file held a key the data does not have. */
  lemma WriteSuccess(d: Disk, data: Data, luck: Luck)
    requires WriteSucceeds(d, data, luck)
    ensures Last(WriteTrace(d, data, luck), d).newFile == Absent
    ensures Rec(Last(WriteTrace(d, data, luck), d)) == Committed(d, data)
    ensures Rec(Last(WriteTrace(d, data, luck), d)) == data <==> KeysOf(d.newFile).Keys <= data.Keys
  {
    OverlayIsData(KeysOf(d.newFile), data);
    if data == map[] {
      assert KeysOf(d.newFile) + data == KeysOf(d.newFile);
    }
  }

  lemma OverlayIsData(leftover: Data, data: Data)
    ensures leftover + data == data <==> leftover.Keys <= data.Keys
  {
    assert (leftover + data).Keys == leftover.Keys + data.Keys;
  }

  /** Reading, cut off anywhere, leaves what the next reader recovers unchanged. */
  lemma ReadKeepsRec(d: Disk, luck: Luck, k: nat)
    requires k < |ReadTrace(d, luck)|
    ensures Rec(ReadTrace(d, luck)[k]) == Rec(d)
  {
  }

  /** Two reads in a row return the same, whatever fails in either. */
  lemma ReadIdempotent(d: Disk, luck: Luck)
    ensures Rec(Last(ReadTrace(d, luck), d)) == Rec(d)
  {
    if ReadTrace(d, luck) != [] {
      ReadKeepsRec(d, luck, |ReadTrace(d, luck)| - 1);
    }
  }
}
