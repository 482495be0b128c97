/** CachedSettingValue of src/base/settingvalue.h: a cache over one cell of the settings storage. */
module CachedSetting {
  import opened Collections
  import opened TransactionalSettings
  import opened SettingsKeys
  import opened SettingsStorage
  import opened SettingsMachine

  /** How values of T are kept in the storage; `decode` fails on text that does not convert. */
  datatype Codec<!T> = Codec(encode: T -> string, decode: string -> Option<T>)

  ghost predicate RoundTrips<T(!new)>(codec: Codec<T>) {
    forall v :: codec.decode(codec.encode(v)) == Some(v)
  }

  /** SettingsStorage::loadValue<T>: the default for a missing key and for an inconvertible value. */
  function Converted<T>(value: Option<string>, codec: Codec<T>, defaultValue: T): T {
    match value
    case None => defaultValue
    case Some(text) =>
      match codec.decode(text)
      case Some(v) => v
      case None => defaultValue
  }

  function LoadTyped<T>(m: Memory, codec: Codec<T>, key: string, defaultValue: T): T {
    Converted(Load(m, key), codec, defaultValue)
  }

  class CachedSettingValue<T(==, !new)> {
    const storage: SettingsStorage
    const codec: Codec<T>
    const keyName: string
    const defaultValue: T
    const proxyFunc: T -> T
    var m_cache: T

    /** The cache is what rebuilding it from the storage would give. */
    ghost predicate InSync()
      reads this, storage
    {
      m_cache == proxyFunc(LoadTyped(storage.View(), codec, keyName, defaultValue))
    }

    constructor (storage: SettingsStorage, codec: Codec<T>, keyName: string, defaultValue: T, proxyFunc: T -> T)
      ensures this.storage == storage && this.codec == codec && this.keyName == keyName
      ensures this.defaultValue == defaultValue && this.proxyFunc == proxyFunc
      ensures InSync()
      ensures var cell := MapKey(keyName);
              m_cache == proxyFunc(
                if cell in storage.m_data && codec.decode(storage.m_data[cell]).Some? then
                  codec.decode(storage.m_data[cell]).value
                else defaultValue)
    {
      this.storage, this.codec, this.keyName := storage, codec, keyName;
      this.defaultValue, this.proxyFunc := defaultValue, proxyFunc;
      var stored := storage.LoadValue(keyName);
      m_cache := proxyFunc(Converted(stored, codec, defaultValue));
    }

    /** operator=. An equal value is not stored, whether or not the key exists; the cache stays the one
        a rebuild would give exactly when the value was cached already or is a fixed point of the
        proxy function. */
    method Assign(value: T)
      requires InSync() && RoundTrips(codec)
      modifies `m_cache, storage
      ensures m_cache == value
      ensures storage.View() ==
              if old(m_cache) == value then old(storage.View())
              else Stored(old(storage.View()), keyName, codec.encode(value))
      ensures InSync() <==> value == old(m_cache) || proxyFunc(value) == value
    {
      if m_cache == value {
        return;
      }
      storage.StoreValue(keyName, codec.encode(value));
      m_cache := value;
    }
  }

  /** Settings over one storage, one per canonical key. */
  ghost predicate OnePerKey<T(!new)>(cells: seq<CachedSettingValue<T>>) {
    && (forall i :: 0 <= i < |cells| ==> RoundTrips(cells[i].codec))
    && (forall i, j :: 0 <= i < j < |cells| ==>
          cells[i] != cells[j] && cells[i].storage == cells[j].storage
          && MapKey(cells[i].keyName) != MapKey(cells[j].keyName))
  }

  ghost predicate AllInSync<T(!new)>(cells: seq<CachedSettingValue<T>>)
    reads cells, set i | 0 <= i < |cells| :: cells[i].storage
  {
    forall i :: 0 <= i < |cells| ==> cells[i].InSync()
  }

  /** What happens to the storage between two looks at the caches: assignments to them, and everything
      else - stores under other keys, which is also what other types' settings do, removals of other
      keys, and saves. */
  datatype Use<T> =
    | Assign(i: nat, value: T)
    | StoreOther(key: string, text: string)
    | RemoveOther(key: string)
    | Save(luck: Luck)

  /** Only fixed points are assigned, and other uses keep away from the settings' keys. */
  ghost predicate Proper<T(!new)>(cells: seq<CachedSettingValue<T>>, use: Use<T>) {
    match use
    case Assign(i, value) => i < |cells| && cells[i].proxyFunc(value) == value
    case StoreOther(key, _) => forall i :: 0 <= i < |cells| ==> MapKey(cells[i].keyName) != MapKey(key)
    case RemoveOther(key) => forall i :: 0 <= i < |cells| ==> MapKey(cells[i].keyName) != MapKey(key)
    case Save(_) => true
  }

  /** Any run of such uses keeps every cache in step with the storage. */
  method UseAll<T(==, !new)>(storage: SettingsStorage, cells: seq<CachedSettingValue<T>>, run: seq<Use<T>>)
    requires OnePerKey(cells) && AllInSync(cells) && forall i :: 0 <= i < |cells| ==> cells[i].storage == storage
    requires forall k :: 0 <= k < |run| ==> Proper(cells, run[k])
    modifies cells, storage, storage.files
    ensures AllInSync(cells)
  {
    for n := 0 to |run|
      invariant AllInSync(cells)
    {
      match run[n]
      case Assign(i, value) => AssignOne(cells, i, value);
      case _ => UseStorage(storage, cells, run[n]);
    }
  }

  method UseStorage<T(!new)>(storage: SettingsStorage, cells: seq<CachedSettingValue<T>>, use: Use<T>)
    requires AllInSync(cells) && forall i :: 0 <= i < |cells| ==> cells[i].storage == storage
    requires Proper(cells, use) && !use.Assign?
    modifies storage, storage.files
    ensures AllInSync(cells)
  {
    ghost var m := storage.View();
    label Before:
    MakeUse(storage, use);
    forall j | 0 <= j < |cells|
      ensures cells[j].InSync()
    {
      assert old@Before(cells[j].InSync());
      OthersRead(m, storage.View(), cells, use, j);
    }
  }

  /** What a use other than an assignment does to the memory. */
  predicate Used<T>(m: Memory, m': Memory, use: Use<T>) {
    match use
    case StoreOther(key, text) => m' == Stored(m, key, text)
    case RemoveOther(key) => m' == RemovedKey(m, key)
    case _ => m'.data == m.data
  }

  method MakeUse<T>(storage: SettingsStorage, use: Use<T>)
    requires !use.Assign?
    modifies storage, storage.files
    ensures Used(old(storage.View()), storage.View(), use)
  {
    match use
    case StoreOther(key, text) => storage.StoreValue(key, text);
    case RemoveOther(key) => storage.RemoveValue(key);
    case Save(luck) => var ok := storage.Save(luck);
  }

  /** A proper use leaves what is loaded for the settings. */
  lemma OthersRead<T(!new)>(m: Memory, m': Memory, cells: seq<CachedSettingValue<T>>, use: Use<T>, j: nat)
    requires Proper(cells, use) && !use.Assign? && j < |cells| && Used(m, m', use)
    ensures Load(m', cells[j].keyName) == Load(m, cells[j].keyName)
  {
  }

  method AssignOne<T(==, !new)>(cells: seq<CachedSettingValue<T>>, i: nat, value: T)
    requires OnePerKey(cells) && AllInSync(cells) && i < |cells| && cells[i].proxyFunc(value) == value
    modifies cells, set i | 0 <= i < |cells| :: cells[i].storage
    ensures AllInSync(cells)
  {
    label Before:
    cells[i].Assign(value);
    forall j | 0 <= j < |cells| && j != i
      ensures cells[j].InSync()
    {
      assert old@Before(cells[j].InSync());
      OtherCell(cells, i, j);
    }
  }

  lemma OtherCell<T(!new)>(cells: seq<CachedSettingValue<T>>, i: nat, j: nat)
    requires OnePerKey(cells) && i < |cells| && j < |cells| && i != j
    ensures cells[i] != cells[j] && cells[i].storage == cells[j].storage
    ensures MapKey(cells[i].keyName) != MapKey(cells[j].keyName)
  {
  }

  /** After `before`, from any disk, the process is clean, say by a save() that returned true. Then come
      crashes and recoveries, cut short or not, but nothing is committed, and step `a` finishes a
      recovery: the new process loads what a reader of the clean process's disk gets. */
  lemma RestartLoads(disk: Disk, before: seq<Action>, between: seq<Action>, a: Action)
    requires LegalRun(World(disk, Down), before)
    requires var w := After(World(disk, Down), before);
             && w.p.Running? && !w.p.m.dirty
             && LegalRun(w, between) && Commits(w, between) == []
    requires var w' := After(After(World(disk, Down), before), between);
             Enabled(w', a) && !w'.p.Running? && Step(w', a).p.Running?
    ensures var w := After(World(disk, Down), before);
            && Step(After(w, between), a).p.m == Loaded(Rec(w.disk))
            && Within(w.p.m.data, Rec(w.disk)) && (w.p.m.data == Rec(w.disk) <==> !w.p.stale)
  {
    var w := After(World(disk, Down), before);
    ReachableMemory(disk, before);
    RunKeepsInv(World(disk, Down), before);
    RunKeepsInv(w, between);
    RecIsLastCommit(w, between);
    RecoveryLoadsRec(After(w, between), a);
  }

  /** So a setting rebuilt after the restart reads the same value as before it if and only if its key was
      in memory, or is not on disk either, or what a leftover "_new" file brought back of it converts to
      the default. */
  lemma RestartReadsSame<T>(disk: Disk, before: seq<Action>, between: seq<Action>, a: Action,
                            codec: Codec<T>, key: string, defaultValue: T)
    requires LegalRun(World(disk, Down), before)
    requires var w := After(World(disk, Down), before);
             && w.p.Running? && !w.p.m.dirty
             && LegalRun(w, between) && Commits(w, between) == []
    requires var w' := After(After(World(disk, Down), before), between);
             Enabled(w', a) && !w'.p.Running? && Step(w', a).p.Running?
    ensures var w := After(World(disk, Down), before);
            LoadTyped(Step(After(w, between), a).p.m, codec, key, defaultValue)
            == LoadTyped(w.p.m, codec, key, defaultValue)
            <==>
            || MapKey(key) in w.p.m.data || MapKey(key) !in Rec(w.disk)
            || Converted(Some(Rec(w.disk)[MapKey(key)]), codec, defaultValue) == defaultValue
  {
    RestartLoads(disk, before, between, a);
  }
}
