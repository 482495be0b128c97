/** SettingsStorage of src/base/settingsstorage.cpp: the in-memory settings, their dirty bit and the
    single-shot retry timer, over the two settings files. */
module SettingsStorage {
  import opened Collections
  import opened TransactionalSettings
  import opened SettingsKeys

  /** m_data, m_dirty and whether m_timer is active. */
  datatype Memory = Memory(data: Data, dirty: bool, timer: bool)

  function Loaded(data: Data): Memory {
    Memory(data, false, false)
  }

  function Stored(m: Memory, key: string, value: string): Memory {
    var realKey := MapKey(key);
    if realKey in m.data && m.data[realKey] == value then m
    else Memory(m.data[realKey := value], true, true)
  }

  function RemovedKey(m: Memory, key: string): Memory {
    var realKey := MapKey(key);
    if realKey in m.data then Memory(m.data - {realKey}, true, true) else m
  }

  /** The stored value, if there is one; an absent one is the source's invalid QVariant. */
  function Load(m: Memory, key: string): Option<string> {
    if MapKey(key) in m.data then Some(m.data[MapKey(key)]) else None
  }

  /** The memory after the locked section of save() ended with `written`. */
  function SaveEnded(m: Memory, written: bool): Memory {
    if written then m.(dirty := false) else m.(timer := true)
  }

  class SettingsStorage {
    const files: SettingsFiles
    var m_dirty: bool
    var m_data: Data
    var m_timerActive: bool

    function View(): Memory
      reads this
    {
      Memory(m_data, m_dirty, m_timerActive)
    }

    constructor (files: SettingsFiles, luck: Luck)
      modifies files
      ensures this.files == files
      ensures View() == Loaded(Rec(old(files.View())))
      ensures files.View() == Last(ReadTrace(old(files.View()), luck), old(files.View()))
    {
      this.files := files;
      m_dirty, m_timerActive, m_data := false, false, map[];
      new;
      m_data := files.Read(luck);
    }

    /** save(), called with nobody else holding the lock. */
    method Save(luck: Luck) returns (success: bool)
      modifies this, files
      ensures success == (!old(m_dirty) || WriteSucceeds(old(files.View()), old(m_data), luck))
      ensures View() == if old(m_dirty) then SaveEnded(old(View()), success) else old(View())
      ensures m_data == old(m_data)
      ensures success ==> !m_dirty && m_timerActive == old(m_timerActive)
      ensures !success ==> m_dirty && m_timerActive
      ensures files.View() ==
              if old(m_dirty) then Last(WriteTrace(old(files.View()), old(m_data), luck), old(files.View()))
              else old(files.View())
    {
      if !m_dirty {
        return true;
      }
      success := files.Write(m_data, luck);
      if !success {
        m_timerActive := true;
        return false;
      }
      m_dirty := false;
    }

    method LoadValue(key: string) returns (value: Option<string>)
      ensures value == Load(View(), key)
    {
      var realKey := MapKey(key);
      value := if realKey in m_data then Some(m_data[realKey]) else None;
    }

    method StoreValue(key: string, value: string)
      modifies this
      ensures View() == Stored(old(View()), key, value)
      ensures Load(old(View()), key) == Some(value) ==> View() == old(View())
      ensures Load(old(View()), key) != Some(value) ==>
                m_data == old(m_data)[MapKey(key) := value] && m_dirty && m_timerActive
    {
      var realKey := MapKey(key);
      if realKey !in m_data || m_data[realKey] != value {
        m_dirty := true;
        m_data := m_data[realKey := value];
        m_timerActive := true;
      }
    }

    method RemoveValue(key: string)
      modifies this
      ensures View() == RemovedKey(old(View()), key)
      ensures Load(old(View()), key) == None ==> View() == old(View())
      ensures Load(old(View()), key) != None ==>
                m_data == old(m_data) - {MapKey(key)} && m_dirty && m_timerActive
    {
      var realKey := MapKey(key);
      if realKey in m_data {
        m_data := m_data - {realKey};
        m_dirty := true;
        m_timerActive := true;
      }
    }
  }

  /** A stored value is read back under the same name, its alias or its legacy name, and no other
      cell is touched. */
  lemma StoreThenLoad(m: Memory, key: string, value: string, other: string)
    ensures Load(Stored(m, key, value), other) ==
            if MapKey(other) == MapKey(key) then Some(value) else Load(m, other)
    ensures Load(Stored(m, key, value), MapKey(key)) == Some(value)
  {
    MapKeyIdempotent(key);
  }

  /** What is kept under an alias is kept in the cell of its legacy name, and in no other. */
  lemma AliasCell(m: Memory, group: Group, rest: string, value: string)
    requires rest in Names(group)
    ensures var alias, legacy := Prefix(group) + rest, LegacyPrefix(group) + Names(group)[rest];
            && Load(m, alias) == (if legacy in m.data then Some(m.data[legacy]) else None)
            && Load(m, legacy) == Load(m, alias)
            && Stored(m, alias, value).data == m.data[legacy := value]
            && RemovedKey(m, alias).data == m.data - {legacy}
  {
    var legacy := LegacyPrefix(group) + Names(group)[rest];
    AliasMapped(group, rest);
    LegacyIsNoAlias(group, rest);
    OthersKept(legacy);
    CellOf(m, Prefix(group) + rest, legacy, value);
    CellOf(m, legacy, legacy, value);
  }

  lemma CellOf(m: Memory, key: string, cell: string, value: string)
    requires MapKey(key) == cell
    ensures Load(m, key) == if cell in m.data then Some(m.data[cell]) else None
    ensures Stored(m, key, value).data == m.data[cell := value]
    ensures RemovedKey(m, key).data == m.data - {cell}
  {
  }

  /** What is kept under any other name is kept in the cell of that name. */
  lemma OwnCell(m: Memory, key: string, value: string)
    requires !IsAlias(key)
    ensures Load(m, key) == if key in m.data then Some(m.data[key]) else None
    ensures Stored(m, key, value).data == m.data[key := value]
    ensures RemovedKey(m, key).data == m.data - {key}
  {
    OthersKept(key);
  }

  /** Storing or removing under one name changes what another name loads only if one of the two is the
      other's legacy name. */
  lemma OthersUndisturbed(m: Memory, key: string, value: string, other: string)
    requires key != other && !(IsAlias(key) && MapKey(key) == other) && !(IsAlias(other) && MapKey(other) == key)
    ensures Load(Stored(m, key, value), other) == Load(m, other)
    ensures Load(RemovedKey(m, key), other) == Load(m, other)
  {
    SameCellIff(key, other);
  }

  /** So what is kept under one alias is out of the reach of every other alias. */
  lemma AliasesUndisturbed(m: Memory, key: string, value: string, other: string)
    requires IsAlias(key) && IsAlias(other) && key != other
    ensures Load(Stored(m, key, value), other) == Load(m, other)
    ensures Load(RemovedKey(m, key), other) == Load(m, other)
  {
    AliasesApart(key, other);
  }

  // ----- any run of changes -----------------------------------------------------------------

  datatype Change = Put(key: string, value: string) | Drop(key: string)

  function Changed(m: Memory, c: Change): Memory {
    match c
    case Put(key, value) => Stored(m, key, value)
    case Drop(key) => RemovedKey(m, key)
  }

  function ChangedBy(m: Memory, changes: seq<Change>): Memory {
    if changes == [] then m else Changed(ChangedBy(m, changes[..|changes| - 1]), changes[|changes| - 1])
  }

  /** The last change of the cell `realKey`. */
  function LastOf(changes: seq<Change>, realKey: string): Option<Change> {
    if changes == [] then None
    else if MapKey(changes[|changes| - 1].key) == realKey then Some(changes[|changes| - 1])
    else LastOf(changes[..|changes| - 1], realKey)
  }

  /** Whatever was stored and removed under whichever names, a load gives the value last stored under
      the name, its alias or its legacy name, nothing if that was removed since, and the old value if
      it was never touched. */
  lemma {:induction false} LoadGivesLastStored(m: Memory, changes: seq<Change>, key: string)
    ensures Load(ChangedBy(m, changes), key) ==
            match LastOf(changes, MapKey(key))
            case None => Load(m, key)
            case Some(Put(_, value)) => Some(value)
            case Some(Drop(_)) => None
    decreases |changes|
  {
    if changes != [] {
      LoadGivesLastStored(m, changes[..|changes| - 1], key);
    }
  }
}
