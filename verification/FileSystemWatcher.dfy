/** Algorithm::removeIf of src/base/algorithm.h, for maps: erase while walking, with a predicate that may
    change the value it is shown and carries a state of its own. */
module Algorithm {
  import opened Collections

  /** What the predicate answers for one entry: erase it? its new value, and the predicate's new state. */
  datatype Answer<V, S> = Answer(erase: bool, value: V, state: S)

  /** The state after the predicate has been shown the entries of `order`, one by one. */
  function StateAfter<K, V, S>(dict: map<K, V>, order: seq<K>, p: (K, V, S) -> Answer<V, S>, s: S): S
    requires forall k :: k in order ==> k in dict
  {
    if order == [] then s
    else
      var init, k := order[..|order| - 1], order[|order| - 1];
      p(k, dict[k], StateAfter(dict, init, p, s)).state
  }

  /** What the predicate answers for the i-th entry of the walk, in the state it has reached there. */
  function AnswerAt<K, V, S>(dict: map<K, V>, order: seq<K>, p: (K, V, S) -> Answer<V, S>, s: S, i: nat): Answer<V, S>
    requires i < |order| && forall k :: k in order ==> k in dict
  {
    assert forall k :: k in order[..i] ==> k in order;
    p(order[i], dict[order[i]], StateAfter(dict, order[..i], p, s))
  }

  /** What is left of the walked entries: those not asked to be erased, with their new values. */
  ghost function KeptBy<K, V, S>(dict: map<K, V>, order: seq<K>, p: (K, V, S) -> Answer<V, S>, s: S): map<K, V>
    requires forall k :: k in order ==> k in dict
  {
    if order == [] then map[]
    else
      var init, k := order[..|order| - 1], order[|order| - 1];
      var answer := p(k, dict[k], StateAfter(dict, init, p, s));
      if answer.erase then KeptBy(dict, init, p, s) else KeptBy(dict, init, p, s)[k := answer.value]
  }

  /** The walk: in some order every entry is shown to the predicate exactly once, each with the state
      its predecessors left. */
  method RemoveIf<K(!new), V, S>(dict: map<K, V>, p: (K, V, S) -> Answer<V, S>, s0: S)
    returns (kept: map<K, V>, s: S, ghost order: seq<K>)
    ensures NoDup(order) && forall k :: k in order <==> k in dict
    ensures s == StateAfter(dict, order, p, s0)
    ensures kept == KeptBy(dict, order, p, s0)
  {
    kept, s, order := dict, s0, [];
    var ahead := dict.Keys;
    WalkStarts(dict, p, s0);
    while |ahead| > 0
      invariant Walked(dict, order, ahead)
      invariant s == StateAfter(dict, order, p, s0) && kept == StillThere(dict, order, ahead, p, s0)
      decreases ahead
    {
      var k := Pick(ahead);
      WalkStep(dict, order, ahead, k, p, s0);
      var answer := p(k, kept[k], s);
      s := answer.state;
      kept := if answer.erase then kept - {k} else kept[k := answer.value];
      ahead := ahead - {k};
      order := order + [k];
    }
    WalkEnds(dict, order, p, s0);
  }

  ghost predicate Walked<K(!new), V>(dict: map<K, V>, order: seq<K>, ahead: set<K>) {
    ahead <= dict.Keys && NoDup(order) && forall k :: k in order <==> k in dict && k !in ahead
  }

  /** What the container holds during the walk. */
  ghost function StillThere<K(!new), V, S>(dict: map<K, V>, order: seq<K>, ahead: set<K>,
                                     p: (K, V, S) -> Answer<V, S>, s: S): map<K, V>
    requires Walked(dict, order, ahead)
  {
    Ahead(dict, ahead) + KeptBy(dict, order, p, s)
  }

  lemma WalkStarts<K(!new), V, S>(dict: map<K, V>, p: (K, V, S) -> Answer<V, S>, s: S)
    ensures Walked(dict, [], dict.Keys) && StillThere(dict, [], dict.Keys, p, s) == dict
  {
  }

  lemma WalkMoves<K(!new), V>(dict: map<K, V>, order: seq<K>, ahead: set<K>, k: K)
    requires Walked(dict, order, ahead) && k in ahead
    ensures Walked(dict, order + [k], ahead - {k})
  {
  }

  lemma WalkStep<K(!new), V, S>(dict: map<K, V>, order: seq<K>, ahead: set<K>, k: K, p: (K, V, S) -> Answer<V, S>, s: S)
    requires Walked(dict, order, ahead) && k in ahead
    ensures Walked(dict, order + [k], ahead - {k})
    ensures var there := StillThere(dict, order, ahead, p, s);
            var answer := p(k, dict[k], StateAfter(dict, order, p, s));
            && k in there && there[k] == dict[k]
            && StateAfter(dict, order + [k], p, s) == answer.state
            && StillThere(dict, order + [k], ahead - {k}, p, s) ==
               if answer.erase then there - {k} else there[k := answer.value]
  {
    WalkMoves(dict, order, ahead, k);
    KeptKeys(dict, order, p, s);
    var kept := KeptBy(dict, order, p, s);
    assert (order + [k])[..|order|] == order;
    assert Ahead(dict, ahead - {k}) == Ahead(dict, ahead) - {k};
    assert k !in kept && k in Ahead(dict, ahead);
  }

  lemma WalkEnds<K(!new), V, S>(dict: map<K, V>, order: seq<K>, p: (K, V, S) -> Answer<V, S>, s: S)
    requires Walked(dict, order, {})
    ensures StillThere(dict, order, {}, p, s) == KeptBy(dict, order, p, s)
  {
  }

  /** The entries the walk has not reached. */
  ghost function Ahead<K, V>(dict: map<K, V>, ahead: set<K>): map<K, V> {
    map k | k in dict && k in ahead :: dict[k]
  }

  lemma {:induction false} KeptKeys<K, V, S>(dict: map<K, V>, order: seq<K>, p: (K, V, S) -> Answer<V, S>, s: S)
    requires forall k :: k in order ==> k in dict
    ensures forall k :: k in KeptBy(dict, order, p, s) ==> k in order
    decreases |order|
  {
    if order != [] {
      KeptKeys(dict, order[..|order| - 1], p, s);
    }
  }

  /** Entry by entry: the i-th entry of the walk stays exactly when the predicate, in the state reached
      there, does not ask to erase it, and then with the value it gave. */
  lemma {:induction false} KeptAt<K, V, S>(dict: map<K, V>, order: seq<K>, p: (K, V, S) -> Answer<V, S>, s: S, i: nat)
    requires NoDup(order) && i < |order| && forall k :: k in order ==> k in dict
    ensures order[i] in KeptBy(dict, order, p, s) <==> !AnswerAt(dict, order, p, s, i).erase
    ensures order[i] in KeptBy(dict, order, p, s) ==>
              KeptBy(dict, order, p, s)[order[i]] == AnswerAt(dict, order, p, s, i).value
    decreases |order|
  {
    var init := order[..|order| - 1];
    KeptKeys(dict, init, p, s);
    if i < |init| {
      KeptAt(dict, init, p, s, i);
      assert init[..i] == order[..i];
    } else {
      assert order[i] !in init;
    }
  }

  /** What the predicate says of an entry does not depend on its state. */
  ghost predicate Stateless<K(!new), V(!new), S(!new)>(p: (K, V, S) -> Answer<V, S>) {
    forall k, v, s, s' :: p(k, v, s).erase == p(k, v, s').erase && p(k, v, s).value == p(k, v, s').value
  }

  /** Then the order of the walk does not matter for what is left. */
  lemma KeptStateless<K(!new), V(!new), S(!new)>(dict: map<K, V>, order: seq<K>, p: (K, V, S) -> Answer<V, S>, s: S)
    requires Stateless(p) && NoDup(order) && forall k :: k in order <==> k in dict
    ensures KeptBy(dict, order, p, s) == map k | k in dict && !p(k, dict[k], s).erase :: p(k, dict[k], s).value
  {
    KeptKeys(dict, order, p, s);
    forall k | k in dict
      ensures k in KeptBy(dict, order, p, s) <==> !p(k, dict[k], s).erase
      ensures k in KeptBy(dict, order, p, s) ==> KeptBy(dict, order, p, s)[k] == p(k, dict[k], s).value
    {
      var i :| 0 <= i < |order| && order[i] == k;
      KeptAt(dict, order, p, s, i);
    }
  }
}

/** The watched folders and the partial torrents of src/base/filesystemwatcher.cpp. A torrent file that
    does not load yet is retried by a single-shot timer. */
module FileSystemWatcher {
  import opened Collections
  import opened Algorithm

  const MAX_PARTIAL_RETRIES := 5

  /** What the file system says during one check of the partial torrents. */
  datatype Check = Check(exists_: string -> bool, valid: string -> bool)

  /** The predicate's own state: the torrents that load now, and the ones given up. */
  datatype Outcome = Outcome(noLongerPartial: seq<string>, rejected: seq<string>)

  /** The lambda given to removeIf. */
  function Retry(check: Check, path: string, value: int, out: Outcome): Answer<int, Outcome> {
    if !check.exists_(path) then Answer(true, value, out)
    else if check.valid(path) then Answer(true, value, out.(noLongerPartial := out.noLongerPartial + [path]))
    else if value >= MAX_PARTIAL_RETRIES then Answer(true, value, out.(rejected := out.rejected + [path]))
    else Answer(false, value + 1, out)
  }

  function RetryFor(check: Check): (string, int, Outcome) -> Answer<int, Outcome> {
    (path: string, value: int, out: Outcome) => Retry(check, path, value, out)
  }

  predicate Notified(check: Check, path: string) {
    check.exists_(path) && check.valid(path)
  }

  predicate Rejected(check: Check, path: string, value: int) {
    check.exists_(path) && !check.valid(path) && value >= MAX_PARTIAL_RETRIES
  }

  predicate Kept(check: Check, path: string, value: int) {
    check.exists_(path) && !check.valid(path) && value < MAX_PARTIAL_RETRIES
  }

  /** The partial torrents after a check: the kept ones, one retry older. */
  function Checked(partial: map<string, int>, check: Check): map<string, int> {
    map path | path in partial && Kept(check, path, partial[path]) :: partial[path] + 1
  }

  /** A file found in a watched folder: its absolute path, and whether it is a magnet link file. */
  datatype Found = Found(path: string, isMagnet: bool)

  /** The partial torrents after a rescan: the new ones start at 0, the known ones keep their counters. */
  function Rescanned(partial: map<string, int>, files: seq<Found>, valid: string -> bool): map<string, int> {
    if files == [] then partial
    else
      var f := files[|files| - 1];
      var before := Rescanned(partial, files[..|files| - 1], valid);
      if f.isMagnet || valid(f.path) || f.path in before then before else before[f.path := 0]
  }

  function ReadyPaths(files: seq<Found>, valid: string -> bool): seq<string> {
    if files == [] then []
    else
      var f := files[|files| - 1];
      ReadyPaths(files[..|files| - 1], valid) + if f.isMagnet || valid(f.path) then [f.path] else []
  }

  /** The files before the i-th that are announced. */
  ghost function ReadyBefore(files: seq<Found>, valid: string -> bool, i: nat): set<int>
    requires i <= |files|
  {
    set j | 0 <= j < i && (files[j].isMagnet || valid(files[j].path))
  }

  lemma ReadyBeforeStep(files: seq<Found>, valid: string -> bool, i: nat)
    requires i < |files|
    ensures |ReadyBefore(files, valid, i + 1)| ==
            |ReadyBefore(files, valid, i)| + if files[i].isMagnet || valid(files[i].path) then 1 else 0
  {
    var before := ReadyBefore(files, valid, i);
    assert ReadyBefore(files, valid, i + 1) ==
           if files[i].isMagnet || valid(files[i].path) then before + {i} else before;
  }

  lemma {:induction false} AnnouncedAt(files: seq<Found>, valid: string -> bool)
    ensures |ReadyPaths(files, valid)| == |ReadyBefore(files, valid, |files|)|
    ensures forall i :: 0 <= i < |files| && (files[i].isMagnet || valid(files[i].path)) ==>
              var n := |ReadyBefore(files, valid, i)|;
              n < |ReadyPaths(files, valid)| && ReadyPaths(files, valid)[n] == files[i].path
    decreases |files|
  {
    if files != [] {
      var k := |files| - 1;
      AnnouncedAt(files[..k], valid);
      ReadyBeforeStep(files, valid, k);
      forall i | 0 <= i <= k
        ensures ReadyBefore(files[..k], valid, i) == ReadyBefore(files, valid, i)
      {
      }
    }
  }

  /** Every magnet file and every file that loads is announced, after those that precede it, and nothing
      else is. */
  lemma AnnouncedInOrder(files: seq<Found>, valid: string -> bool)
    ensures |ReadyPaths(files, valid)| ==
            |set j | 0 <= j < |files| && (files[j].isMagnet || valid(files[j].path))|
    ensures forall i :: 0 <= i < |files| && (files[i].isMagnet || valid(files[i].path)) ==>
              var n := |set j | 0 <= j < i && (files[j].isMagnet || valid(files[j].path))|;
              n < |ReadyPaths(files, valid)| && ReadyPaths(files, valid)[n] == files[i].path
  {
    AnnouncedAt(files, valid);
    forall i | 0 <= i <= |files|
      ensures (set j | 0 <= j < i && (files[j].isMagnet || valid(files[j].path))) == ReadyBefore(files, valid, i)
    {
    }
  }

  ghost predicate CountersInRange(partial: map<string, int>) {
    forall path :: path in partial ==> 0 <= partial[path] <= MAX_PARTIAL_RETRIES
  }

  /** The members of `order` that satisfy `test`, in order. */
  function Filtered(order: seq<string>, test: string -> bool): seq<string> {
    if order == [] then []
    else
      var last := order[|order| - 1];
      Filtered(order[..|order| - 1], test) + if test(last) then [last] else []
  }

  lemma {:induction false} FilteredFacts(order: seq<string>, test: string -> bool)
    requires NoDup(order)
    ensures NoDup(Filtered(order, test))
    ensures forall x :: x in Filtered(order, test) <==> x in order && test(x)
    decreases |order|
  {
    if order != [] {
      var init, last := order[..|order| - 1], order[|order| - 1];
      assert order == init + [last] && last !in init;
      FilteredFacts(init, test);
    }
  }

  /** The walk announces the loading files and rejects the used-up ones, in the order it meets them. */
  lemma {:induction false} OutcomeListed(partial: map<string, int>, order: seq<string>, check: Check)
    requires forall path :: path in order ==> path in partial
    ensures var out := StateAfter(partial, order, RetryFor(check), Outcome([], []));
            && out.noLongerPartial == Filtered(order, path => Notified(check, path))
            && out.rejected == Filtered(order, path => path in partial && Rejected(check, path, partial[path]))
    decreases |order|
  {
    if order != [] {
      OutcomeListed(partial, order[..|order| - 1], check);
    }
  }

  /** What one check announces and rejects. */
  lemma WalkPartitions(partial: map<string, int>, order: seq<string>, check: Check, out: Outcome)
    requires NoDup(order) && forall path :: path in order <==> path in partial
    requires out == StateAfter(partial, order, RetryFor(check), Outcome([], []))
    ensures NoDup(out.noLongerPartial) && NoDup(out.rejected)
    ensures forall path :: path in out.noLongerPartial <==> path in partial && Notified(check, path)
    ensures forall path :: path in out.rejected <==> path in partial && Rejected(check, path, partial[path])
  {
    OutcomeListed(partial, order, check);
    FilteredFacts(order, path => Notified(check, path));
    FilteredFacts(order, path => path in partial && Rejected(check, path, partial[path]));
  }

  /** What one check keeps. */
  lemma CheckedIsKept(partial: map<string, int>, kept: map<string, int>, check: Check)
    requires CountersInRange(partial)
    requires kept == map k | k in partial && !RetryFor(check)(k, partial[k], Outcome([], [])).erase
                     :: RetryFor(check)(k, partial[k], Outcome([], [])).value
    ensures kept == Checked(partial, check) && CountersInRange(kept)
  {
  }

  class FileSystemWatcher {
    var m_partialTorrents: map<string, int>
    var m_partialTorrentTimer: bool
    var m_watchedFolders: seq<string>
    var m_watchTimer: bool
    /** The directories Qt's own watcher was given, and the delayed first scans that are still to come. */
    var localFolders: set<string>
    var pendingScans: multiset<string>

    /** Holds whenever no slot is running. */
    ghost predicate Valid()
      reads this
    {
      && (m_partialTorrentTimer <==> m_partialTorrents != map[])
      && CountersInRange(m_partialTorrents)
      && (m_watchTimer <==> m_watchedFolders != [])
    }

    constructor ()
      ensures Valid() && m_partialTorrents == map[] && m_watchedFolders == []
      ensures localFolders == {} && pendingScans == multiset{}
    {
      m_partialTorrents, m_partialTorrentTimer, m_watchedFolders, m_watchTimer := map[], false, [], false;
      localFolders, pendingScans := {}, multiset{};
    }

    /** The timer's slot; a single-shot timer is no longer active when it runs. `torrentsAdded` is the
        list announced, if it is not empty. */
    method ProcessPartialTorrents(check: Check) returns (torrentsAdded: seq<string>, rejected: seq<string>)
      requires Valid() && m_partialTorrentTimer
      modifies `m_partialTorrents, `m_partialTorrentTimer
      ensures Valid()
      ensures m_partialTorrents == Checked(old(m_partialTorrents), check)
      ensures forall path :: path in m_partialTorrents <==>
                path in old(m_partialTorrents) && check.exists_(path) && !check.valid(path)
                && old(m_partialTorrents)[path] < 5
      ensures forall path :: path in m_partialTorrents ==> m_partialTorrents[path] == old(m_partialTorrents)[path] + 1
      ensures NoDup(torrentsAdded) && NoDup(rejected)
      ensures forall path :: path in torrentsAdded <==>
                path in old(m_partialTorrents) && check.exists_(path) && check.valid(path)
      ensures forall path :: path in rejected <==>
                path in old(m_partialTorrents) && check.exists_(path) && !check.valid(path)
                && old(m_partialTorrents)[path] >= 5
    {
      m_partialTorrentTimer := false;
      var kept, out, order := RemoveIf(m_partialTorrents, RetryFor(check), Outcome([], []));
      WalkPartitions(m_partialTorrents, order, check, out);
      KeptStateless(m_partialTorrents, order, RetryFor(check), Outcome([], []));
      CheckedIsKept(m_partialTorrents, kept, check);
      m_partialTorrents := kept;
      if m_partialTorrents != map[] {
        m_partialTorrentTimer := true;
      }
      torrentsAdded, rejected := out.noLongerPartial, out.rejected;
    }

    /** processTorrentsInDir, on the listing of the folder. */
    method ProcessTorrentsInDir(files: seq<Found>, valid: string -> bool) returns (torrents: seq<string>)
      requires Valid()
      modifies `m_partialTorrents, `m_partialTorrentTimer
      ensures Valid()
      ensures torrents == ReadyPaths(files, valid)
      ensures |torrents| == |set j | 0 <= j < |files| && (files[j].isMagnet || valid(files[j].path))|
      ensures forall i :: 0 <= i < |files| && (files[i].isMagnet || valid(files[i].path)) ==>
                var n := |set j | 0 <= j < i && (files[j].isMagnet || valid(files[j].path))|;
                n < |torrents| && torrents[n] == files[i].path
      ensures m_partialTorrents == Rescanned(old(m_partialTorrents), files, valid)
    {
      torrents := [];
      for i := 0 to |files|
        invariant torrents == ReadyPaths(files[..i], valid)
        invariant m_partialTorrents == Rescanned(old(m_partialTorrents), files[..i], valid)
        invariant CountersInRange(m_partialTorrents) && m_partialTorrentTimer == old(m_partialTorrentTimer)
        invariant old(m_partialTorrents) != map[] ==> m_partialTorrents != map[]
      {
        var file := files[i];
        assert files[..i + 1][..i] == files[..i];
        if file.isMagnet {
          torrents := torrents + [file.path];
        } else if valid(file.path) {
          torrents := torrents + [file.path];
        } else if file.path !in m_partialTorrents {
          m_partialTorrents := m_partialTorrents[file.path := 0];
          assert file.path in m_partialTorrents;
        }
      }
      assert files[..|files|] == files;
      AnnouncedInOrder(files, valid);
      if m_partialTorrents != map[] && !m_partialTorrentTimer {
        m_partialTorrentTimer := true;
      }
    }

    /** addPath: a folder on a network file system is polled, a local one is left to Qt's watcher and
        scanned once after a delay. */
    method AddPath(path: string, exists_: bool, isNetwork: bool)
      requires Valid()
      modifies `m_watchedFolders, `m_watchTimer, `localFolders, `pendingScans
      ensures Valid()
      ensures path != "" && exists_ && isNetwork ==>
                && m_watchedFolders == old(m_watchedFolders) + [path]
                && localFolders == old(localFolders) && pendingScans == old(pendingScans)
      ensures path != "" && exists_ && !isNetwork ==>
                && m_watchedFolders == old(m_watchedFolders)
                && localFolders == old(localFolders) + {path} && pendingScans == old(pendingScans) + multiset{path}
      ensures path == "" || !exists_ ==>
                && m_watchedFolders == old(m_watchedFolders)
                && localFolders == old(localFolders) && pendingScans == old(pendingScans)
    {
      if path == "" || !exists_ {
        return;
      }
      if isNetwork {
        m_watchedFolders := m_watchedFolders + [path];
        m_watchTimer := true;
        return;
      }
      localFolders := localFolders + {path};
      ScanLocalFolder(path);
    }

    method ScanLocalFolder(path: string)
      modifies `pendingScans
      ensures pendingScans == old(pendingScans) + multiset{path}
    {
      pendingScans := pendingScans + multiset{path};
    }

    /** A delayed scan comes due, even when the folder was removed meanwhile. */
    method ScanDue(path: string, files: seq<Found>, valid: string -> bool) returns (torrents: seq<string>)
      requires Valid() && path in pendingScans
      modifies `pendingScans, `m_partialTorrents, `m_partialTorrentTimer
      ensures Valid() && pendingScans == old(pendingScans) - multiset{path}
      ensures |torrents| == |set j | 0 <= j < |files| && (files[j].isMagnet || valid(files[j].path))|
      ensures forall i :: 0 <= i < |files| && (files[i].isMagnet || valid(files[i].path)) ==>
                var n := |set j | 0 <= j < i && (files[j].isMagnet || valid(files[j].path))|;
                n < |torrents| && torrents[n] == files[i].path
      ensures m_partialTorrents == Rescanned(old(m_partialTorrents), files, valid)
    {
      pendingScans := pendingScans - multiset{path};
      torrents := ProcessTorrentsInDir(files, valid);
    }

    /** removePath: one occurrence among the polled folders, else the local folder. */
    method RemovePath(path: string)
      requires Valid()
      modifies `m_watchedFolders, `m_watchTimer, `localFolders
      ensures Valid()
      ensures var folders := old(m_watchedFolders);
              var i := IndexOf(folders, path);
              m_watchedFolders == if i < 0 then folders else folders[..i] + folders[i + 1..]
      ensures localFolders == if path in old(m_watchedFolders) then old(localFolders) else old(localFolders) - {path}
    {
      RemoveOneIsAt(m_watchedFolders, path);
      if path in m_watchedFolders {
        m_watchedFolders := RemoveOne(m_watchedFolders, path);
        if m_watchedFolders == [] {
          m_watchTimer := false;
        }
        return;
      }
      localFolders := localFolders - {path};
    }
  }

  // ----- whole runs -----------------------------------------------------------------------

  datatype Event = Timer(check: Check) | Rescan(files: seq<Found>, valid: string -> bool)

  function Next(partial: map<string, int>, e: Event): map<string, int> {
    match e
    case Timer(check) => Checked(partial, check)
    case Rescan(files, valid) => Rescanned(partial, files, valid)
  }

  function After(partial: map<string, int>, run: seq<Event>): map<string, int>
    decreases |run|
  {
    if run == [] then partial else After(Next(partial, run[0]), run[1..])
  }

  function Checks(run: seq<Event>): nat {
    if run == [] then 0 else (if run[0].Timer? then 1 else 0) + Checks(run[1..])
  }

  /** A rescan leaves every known counter alone and adds exactly the files that do not load yet, at 0. */
  lemma {:induction false} RescanKeepsCounters(partial: map<string, int>, files: seq<Found>, valid: string -> bool)
    ensures var now := Rescanned(partial, files, valid);
            && (forall path :: path in now <==>
                  path in partial || exists f :: f in files && f.path == path && !f.isMagnet && !valid(path))
            && (forall path :: path in now ==> now[path] == if path in partial then partial[path] else 0)
    decreases |files|
  {
    if files != [] {
      var init, last := files[..|files| - 1], files[|files| - 1];
      assert files == init + [last];
      RescanKeepsCounters(partial, init, valid);
    }
  }

  /** The path is there, and does not load, at every timer check of the run. */
  ghost predicate StaysInvalid(run: seq<Event>, path: string) {
    forall i :: 0 <= i < |run| && run[i].Timer? ==> run[i].check.exists_(path) && !run[i].check.valid(path)
  }

  /** A path that stays invalid is kept, its counter counting the checks whatever rescans come between,
      until its counter is used up; the check after that rejects it. From counter 0 that is the sixth. */
  lemma {:induction false} KeptThroughRetries(partial: map<string, int>, run: seq<Event>, path: string)
    requires path in partial && StaysInvalid(run, path) && partial[path] + Checks(run) <= 5
    ensures path in After(partial, run) && After(partial, run)[path] == partial[path] + Checks(run)
    decreases |run|
  {
    if run != [] {
      assert StaysInvalid(run[1..], path);
      if run[0].Rescan? {
        RescanKeepsCounters(partial, run[0].files, run[0].valid);
      }
      KeptThroughRetries(Next(partial, run[0]), run[1..], path);
    }
  }

  lemma RejectedOnSixthCheck(partial: map<string, int>, run: seq<Event>, path: string, check: Check)
    requires path in partial && partial[path] == 0
    requires StaysInvalid(run, path) && check.exists_(path) && !check.valid(path)
    requires Checks(run) <= 5
    ensures path in After(partial, run)
    ensures Rejected(check, path, After(partial, run)[path]) <==> Checks(run) == 5
    ensures path in Checked(After(partial, run), check) <==> Checks(run) < 5
  {
    KeptThroughRetries(partial, run, path);
  }

  /** Timer checks alone: what is left after `run` has grown by one each time, so six of them leave nothing. */
  lemma {:induction false} CountersGrow(partial: map<string, int>, run: seq<Event>)
    requires CountersInRange(partial) && Checks(run) == |run|
    ensures CountersInRange(After(partial, run))
    ensures forall path :: path in After(partial, run) ==>
              path in partial && After(partial, run)[path] == partial[path] + |run|
    decreases |run|
  {
    if run != [] {
      AllChecks(run[1..]);
      CountersGrow(Next(partial, run[0]), run[1..]);
    }
  }

  lemma {:induction false} AllChecks(run: seq<Event>)
    ensures Checks(run) <= |run|
  {
    if run != [] {
      AllChecks(run[1..]);
    }
  }

  lemma SixChecksEmptyTheMap(partial: map<string, int>, run: seq<Event>)
    requires (forall path :: path in partial ==> 0 <= partial[path] <= 5) && Checks(run) == |run| >= 6
    ensures After(partial, run) == map[]
  {
    CountersGrow(partial, run);
    assert forall path :: path !in After(partial, run);
  }
}
