/** How many torrents a category node stands for. */
module CategoryCounts {
  import opened Collections
  import opened CategoryPaths
  import opened CategoryTree

  /** The torrents of the session: id to category name ("" when uncategorized). */
  type Torrents = map<int, string>

  const ALL: Path := At(Root, UID_ALL)
  const UNCATEGORIZED: Path := At(Root, UID_UNCATEGORIZED)

  predicate Special(p: Path) {
    p == ALL || p == UNCATEGORIZED
  }

  /** Where the model files a category name. */
  function CategoryPath(nested: bool, category: string): (p: Path)
    ensures p.At?
  {
    if category == "" then UNCATEGORIZED
    else if nested then PathOf(category)
    else At(Root, category)
  }

  /** A name the session lets a category have and that does not collide with the special uid. */
  predicate UsableName(nested: bool, category: string) {
    category != "" && IsValidCategoryName(category) && !Above(UNCATEGORIZED, CategoryPath(nested, category))
  }

  /** So can its prefixes. */
  lemma UsablePrefix(category: string, k: nat)
    requires UsableName(true, category) && k < |Expand(category)|
    ensures UsableName(true, Expand(category)[k])
  {
    ExpandAbove(category, k);
    ValidExpanded(category, k);
    var p := PathOf(Expand(category)[k]);
    if Above(UNCATEGORIZED, p) {
      AboveTransitive(UNCATEGORIZED, p, PathOf(category));
    }
  }

  /** The category has a node among `paths` ("" is filed at "Uncategorized"). */
  predicate Known(paths: set<Path>, nested: bool, category: string) {
    CategoryPath(nested, category) in paths && (category == "" || UsableName(nested, category))
  }

  /** The session's guarantee: every torrent's category has a node. */
  ghost predicate Filed(paths: set<Path>, nested: bool, ts: Torrents) {
    forall id {:trigger ts[id]} :: id in ts ==> Known(paths, nested, ts[id])
  }

  lemma FiledUpdated(paths: set<Path>, nested: bool, ts: Torrents, id: int, category: string)
    requires Filed(paths, nested, ts) && Known(paths, nested, category)
    ensures Filed(paths, nested, ts[id := category]) && Filed(paths, nested, ts - {id})
  {
  }

  /** The torrents filed at `p` or below it. */
  ghost function Under(ts: Torrents, nested: bool, p: Path): set<int> {
    set id | id in ts && Above(p, CategoryPath(nested, ts[id]))
  }

  /** The torrents filed at `p` itself. */
  ghost function Own(ts: Torrents, nested: bool, p: Path): set<int> {
    set id | id in ts && CategoryPath(nested, ts[id]) == p
  }

  /** What the node at `p` should show. */
  ghost function Total(ts: Torrents, nested: bool, p: Path): nat {
    if p == ALL then |ts| else |Under(ts, nested, p)|
  }

  lemma UnderAdded(ts: Torrents, nested: bool, id: int, category: string, p: Path)
    requires id !in ts
    ensures |Under(ts[id := category], nested, p)| ==
            |Under(ts, nested, p)| + if Above(p, CategoryPath(nested, category)) then 1 else 0
  {
    OneMoves(Under(ts, nested, p), Under(ts[id := category], nested, p), id);
  }

  lemma UnderRemoved(ts: Torrents, nested: bool, id: int, p: Path)
    requires id in ts
    ensures |Under(ts - {id}, nested, p)| ==
            |Under(ts, nested, p)| - if Above(p, CategoryPath(nested, ts[id])) then 1 else 0
  {
    UnderAdded(ts - {id}, nested, id, ts[id], p);
    assert (ts - {id})[id := ts[id]] == ts;
  }

  lemma UnderChanged(ts: Torrents, nested: bool, id: int, category: string, p: Path)
    requires id in ts
    ensures |Under(ts[id := category], nested, p)| ==
            |Under(ts, nested, p)|
            - (if Above(p, CategoryPath(nested, ts[id])) then 1 else 0)
            + (if Above(p, CategoryPath(nested, category)) then 1 else 0)
  {
    UnderRemoved(ts, nested, id, p);
    UnderAdded(ts - {id}, nested, id, category, p);
    assert (ts - {id})[id := category] == ts[id := category];
  }

  lemma SizeAfterRemoval(ts: Torrents, id: int)
    requires id in ts
    ensures |ts - {id}| == |ts| - 1
  {
    assert (ts - {id})[id := ts[id]] == ts;
  }

  /** The "All" node holds no category, so nothing is filed under it. */
  lemma NothingUnderAll(nested: bool, category: string)
    requires category == "" || UsableName(nested, category)
    ensures !Above(ALL, CategoryPath(nested, category))
  {
    if category != "" {
      if nested {
        ValidNameCleanPath(category);
        AllNotAboveClean(PathOf(category));
      }
    }
  }

  lemma {:induction false} AllNotAboveClean(p: Path)
    requires CleanPath(p)
    ensures !Above(ALL, p)
    decreases p
  {
    if p.At? {
      AllNotAboveClean(p.up);
    }
  }

  /** Counting torrents by name counts the torrents filed at that category's node. */
  lemma OwnByName(ts: Torrents, nested: bool, category: string)
    requires category != "" && CategoryPath(nested, category) != UNCATEGORIZED
    ensures (set id | id in ts && ts[id] == category) == Own(ts, nested, CategoryPath(nested, category))
  {
    forall id | id in ts && CategoryPath(nested, ts[id]) == CategoryPath(nested, category)
      ensures ts[id] == category
    {
      FullNameOfPathOf(ts[id]);
      FullNameOfPathOf(category);
    }
  }

  /** The torrents filed at `p` or one level below it, among those whose node is in `paths`. */
  ghost function NearIn(ts: Torrents, nested: bool, paths: set<Path>, p: Path): set<int> {
    set id | id in ts && var q := CategoryPath(nested, ts[id]); q in paths && (q == p || q.up == p)
  }

  /** The counts while populate() is under way: each node's own torrents and its present children's. */
  ghost predicate Counted(c: map<Path, int>, ts: Torrents, nested: bool) {
    forall p :: p in c && p.At? ==> c[p] == if p == ALL then |ts| else |NearIn(ts, nested, c.Keys, p)|
  }

  lemma CountedStart(c: map<Path, int>, ts: Torrents, nested: bool)
    requires forall id :: id in ts ==> ts[id] == "" || UsableName(nested, ts[id])
    requires c.Keys == {Root, ALL, UNCATEGORIZED} && c[ALL] == |ts|
    requires c[UNCATEGORIZED] == |set id | id in ts && ts[id] == ""|
    ensures Counted(c, ts, nested)
  {
    UncategorizedCount(ts, nested);
  }

  /** A new node with its own torrents' count, added to its parent's, keeps the counts right. */
  lemma CountedGrows(c: map<Path, int>, c': map<Path, int>, ts: Torrents, nested: bool, q: Path)
    requires Counted(c, ts, nested) && q.At? && q !in c && q.up in c && q.up != ALL && q != ALL
    requires forall r :: r in c && r.At? ==> r.up in c
    requires c' == Grown(c, q, |Own(ts, nested, q)|)
    ensures Counted(c', ts, nested)
  {
    assert c'.Keys == c.Keys + {q};
    forall p | p in c' && p.At?
      ensures c'[p] == if p == ALL then |ts| else |NearIn(ts, nested, c'.Keys, p)|
    {
      NearInGrows(ts, nested, c.Keys, q, p);
    }
  }

  lemma UncategorizedCount(ts: Torrents, nested: bool)
    requires forall id :: id in ts ==> ts[id] == "" || UsableName(nested, ts[id])
    ensures (set id | id in ts && ts[id] == "") == NearIn(ts, nested, {Root, ALL, UNCATEGORIZED}, UNCATEGORIZED)
    ensures (set id | id in ts && ts[id] == "") == Under(ts, nested, UNCATEGORIZED)
  {
    assert Above(UNCATEGORIZED, UNCATEGORIZED);
    forall id | id in ts
      ensures Above(UNCATEGORIZED, CategoryPath(nested, ts[id])) <==> ts[id] == ""
      ensures CategoryPath(nested, ts[id]) == UNCATEGORIZED <==> ts[id] == ""
    {
      assert ts[id] == "" || UsableName(nested, ts[id]);
    }
    var blank := set id | id in ts && ts[id] == "";
    assert forall id :: id in blank <==> id in Under(ts, nested, UNCATEGORIZED);
    assert forall id :: id in blank <==> id in NearIn(ts, nested, {Root, ALL, UNCATEGORIZED}, UNCATEGORIZED);
  }

  lemma NearInGrows(ts: Torrents, nested: bool, paths: set<Path>, q: Path, p: Path)
    requires q.At? && q !in paths
    requires forall r :: r in paths && r.At? ==> r.up in paths
    ensures p == q ==> |NearIn(ts, nested, paths + {q}, p)| == |Own(ts, nested, q)|
    ensures p == q.up ==>
              |NearIn(ts, nested, paths + {q}, p)| == |NearIn(ts, nested, paths, p)| + |Own(ts, nested, q)|
    ensures p != q && p != q.up ==> NearIn(ts, nested, paths + {q}, p) == NearIn(ts, nested, paths, p)
  {
    if p == q {
      forall id | id in NearIn(ts, nested, paths + {q}, p)
        ensures id in Own(ts, nested, q)
      {
        var r := CategoryPath(nested, ts[id]);
        assert r == q || r in paths;
      }
      assert NearIn(ts, nested, paths + {q}, p) == Own(ts, nested, q);
    } else if p == q.up {
      ParentNearGrows(ts, nested, paths, q);
    }
  }

  lemma ParentNearGrows(ts: Torrents, nested: bool, paths: set<Path>, q: Path)
    requires q.At? && q !in paths && q != q.up
    ensures |NearIn(ts, nested, paths + {q}, q.up)| == |NearIn(ts, nested, paths, q.up)| + |Own(ts, nested, q)|
  {
    assert NearIn(ts, nested, paths + {q}, q.up) == NearIn(ts, nested, paths, q.up) + Own(ts, nested, q);
    assert NearIn(ts, nested, paths, q.up) !! Own(ts, nested, q);
  }

  // ----- shown counts against totals ------------------------------------------------

  /** For every node but the root, how far its shown count is from what it should show. */
  ghost function Drifts(c: map<Path, int>, ts: Torrents, nested: bool): map<Path, int> {
    map p | p in c && p.At? :: c[p] - Total(ts, nested, p)
  }

  lemma DriftsAdded(c: map<Path, int>, ts: Torrents, nested: bool, id: int, category: string)
    requires id !in ts && (category == "" || UsableName(nested, category))
    ensures Drifts(Shifted(Shifted(c, CategoryPath(nested, category), 1), ALL, 1), ts[id := category], nested)
            == Drifts(c, ts, nested)
  {
    var q := CategoryPath(nested, category);
    NothingUnderAll(nested, category);
    var before, after := Drifts(c, ts, nested), Drifts(Shifted(Shifted(c, q, 1), ALL, 1), ts[id := category], nested);
    assert before.Keys == after.Keys;
    forall p | p in before
      ensures before[p] == after[p]
    {
      AboveAll(p);
      UnderAdded(ts, nested, id, category, p);
    }
  }

  lemma DriftsRemoved(c: map<Path, int>, ts: Torrents, nested: bool, id: int)
    requires id in ts && (ts[id] == "" || UsableName(nested, ts[id]))
    ensures Drifts(Shifted(Shifted(c, CategoryPath(nested, ts[id]), -1), ALL, -1), ts - {id}, nested)
            == Drifts(c, ts, nested)
  {
    var q := CategoryPath(nested, ts[id]);
    NothingUnderAll(nested, ts[id]);
    SizeAfterRemoval(ts, id);
    var before, after := Drifts(c, ts, nested), Drifts(Shifted(Shifted(c, q, -1), ALL, -1), ts - {id}, nested);
    assert before.Keys == after.Keys;
    forall p | p in before
      ensures before[p] == after[p]
    {
      AboveAll(p);
      UnderRemoved(ts, nested, id, p);
    }
  }

  lemma DriftsChanged(c: map<Path, int>, ts: Torrents, nested: bool, id: int, category: string)
    requires id in ts && (ts[id] == "" || UsableName(nested, ts[id]))
    requires category == "" || UsableName(nested, category)
    ensures Drifts(Shifted(Shifted(c, CategoryPath(nested, ts[id]), -1), CategoryPath(nested, category), 1),
                   ts[id := category], nested)
            == Drifts(c, ts, nested)
  {
    var q, q' := CategoryPath(nested, ts[id]), CategoryPath(nested, category);
    NothingUnderAll(nested, ts[id]);
    NothingUnderAll(nested, category);
    var before, after := Drifts(c, ts, nested), Drifts(Shifted(Shifted(c, q, -1), q', 1), ts[id := category], nested);
    assert before.Keys == after.Keys;
    forall p | p in before
      ensures before[p] == after[p]
    {
      UnderChanged(ts, nested, id, category, p);
    }
  }

  ghost predicate AllZero(m: map<Path, int>) {
    forall p :: p in m ==> m[p] == 0
  }

  /** A new node for a category without torrents shows 0, and is right. */
  lemma DriftsCategoryAdded(c: map<Path, int>, ts: Torrents, nested: bool, p: Path)
    requires p.At? && p != ALL && Under(ts, nested, p) == {}
    ensures Drifts(c[p := 0], ts, nested) == Drifts(c, ts, nested)[p := 0]
  {
    var now, was := Drifts(c[p := 0], ts, nested), Drifts(c, ts, nested);
    assert now[p] == 0;
    assert now.Keys == was.Keys + {p};
    assert forall q :: q in was && q != p ==> now[q] == was[q];
  }

  /** The distances once the subtree at `p` is gone and `taken` was taken from its parent's count. */
  ghost function ParentMoved(drifts: map<Path, int>, p: Path, taken: int): map<Path, int> {
    map q | q in drifts && !Above(p, q) :: drifts[q] - if q == Up(p) then taken else 0
  }

  /** Removing a category's subtree takes its residue from the parent, so only the parent's distance from
      its true count moves, by just that. In an exact tree, and with no torrent in the subtree, the
      residue is 0 and the tree stays exact. */
  lemma DriftsCategoryRemoved(c: map<Path, int>, ts: Torrents, nested: bool, p: Path)
    requires p in c && p.At? && !Above(p, ALL)
    ensures Drifts(Without(c, p), ts, nested) == ParentMoved(Drifts(c, ts, nested), p, Residue(c, p))
    ensures Under(ts, nested, p) == {} && AllZero(Drifts(c, ts, nested)) ==>
              Residue(c, p) == 0 && AllZero(Drifts(Without(c, p), ts, nested))
  {
    DriftsMoved(c, ts, nested, p);
    if Under(ts, nested, p) == {} && AllZero(Drifts(c, ts, nested)) {
      forall q | q in c && Above(p, q)
        ensures c[q] == 0
      {
        NothingUnderDescendant(ts, nested, p, q);
        assert q != ALL;
        assert q in Drifts(c, ts, nested);
      }
      ResidueZero(c, p);
      forall q | q in Drifts(Without(c, p), ts, nested)
        ensures Drifts(Without(c, p), ts, nested)[q] == 0
      {
        assert q in Drifts(c, ts, nested);
      }
    }
  }

  lemma DriftsMoved(c: map<Path, int>, ts: Torrents, nested: bool, p: Path)
    requires p in c && p.At?
    ensures Drifts(Without(c, p), ts, nested) == ParentMoved(Drifts(c, ts, nested), p, Residue(c, p))
  {
    var now, was := Drifts(Without(c, p), ts, nested), Drifts(c, ts, nested);
    var moved := ParentMoved(was, p, Residue(c, p));
    assert now.Keys == moved.Keys;
    forall q | q in now
      ensures now[q] == moved[q]
    {
      assert q in c && !Above(p, q);
    }
  }

  /** A wrong count without a torrent behind it goes back into the parent's when its childless node is
      removed: what populate() and the torrent events left wrong there is not kept. */
  lemma RemovalMovesParent(c: map<Path, int>, ts: Torrents, nested: bool, p: Path)
    requires p in c && p.At? && p.up in c && p.up.At? && !Above(p, ALL)
    requires forall q :: q in c && q.At? ==> q.up != p
    ensures p.up in Drifts(Without(c, p), ts, nested)
    ensures Drifts(Without(c, p), ts, nested)[p.up] == Drifts(c, ts, nested)[p.up] - c[p]
  {
    NotAboveParent(p);
    assert KidResidues(c, p) == map[];
    DriftsMoved(c, ts, nested, p);
  }

  lemma NothingUnderDescendant(ts: Torrents, nested: bool, p: Path, q: Path)
    requires Above(p, q) && Under(ts, nested, p) == {}
    ensures Under(ts, nested, q) == {}
    ensures p.At? ==> q.At?
  {
    forall id | id in Under(ts, nested, q)
      ensures id in Under(ts, nested, p)
    {
      AboveTransitive(p, q, CategoryPath(nested, ts[id]));
    }
  }

  lemma AboveAll(p: Path)
    requires p.At?
    ensures Above(p, ALL) <==> p == ALL
  {
  }

  // ----- the counts populate() computes in nested mode ------------------------------

  /** The torrents filed at `p` or exactly one level below it. */
  ghost function Near(ts: Torrents, nested: bool, p: Path): set<int> {
    set id | id in ts && (CategoryPath(nested, ts[id]) == p || CategoryPath(nested, ts[id]).up == p)
  }

  lemma NearIsUnder(ts: Torrents, nested: bool, p: Path)
    ensures Near(ts, nested, p) <= Under(ts, nested, p)
  {
    forall id | id in Near(ts, nested, p)
      ensures id in Under(ts, nested, p)
    {
      var q := CategoryPath(nested, ts[id]);
      assert Above(q.up, q.up) && Above(q, q);
    }
  }

  /** Once every torrent's node is present, the restriction to present nodes says nothing. */
  lemma NearInAll(ts: Torrents, nested: bool, paths: set<Path>, p: Path)
    requires Filed(paths, nested, ts)
    ensures NearIn(ts, nested, paths, p) == Near(ts, nested, p)
    ensures paths >= {Root, ALL, UNCATEGORIZED} ==> Near(ts, nested, UNCATEGORIZED) == Under(ts, nested, UNCATEGORIZED)
  {
    forall id | id in ts
      ensures CategoryPath(nested, ts[id]) in paths
    {
      assert Known(paths, nested, ts[id]);
    }
    assert forall id :: id in Near(ts, nested, p) <==> id in NearIn(ts, nested, paths, p);
    if paths >= {Root, ALL, UNCATEGORIZED} {
      assert Above(UNCATEGORIZED, UNCATEGORIZED);
      forall id | id in ts
        ensures id in Near(ts, nested, UNCATEGORIZED) <==> id in Under(ts, nested, UNCATEGORIZED)
      {
        assert Known(paths, nested, ts[id]);
        var q := CategoryPath(nested, ts[id]);
        assert Above(q.up, q) by { assert Above(q.up, q.up); }
      }
    }
  }

  /** populate() shows the subtree total exactly when no torrent lies two or more levels below the node. */
  lemma PopulateCountExact(ts: Torrents, nested: bool, p: Path)
    ensures |Near(ts, nested, p)| == |Under(ts, nested, p)| <==>
            forall id :: id in ts && Above(p, CategoryPath(nested, ts[id])) ==>
                           Depth(CategoryPath(nested, ts[id])) <= Depth(p) + 1
  {
    var near, under := Near(ts, nested, p), Under(ts, nested, p);
    NearIsUnder(ts, nested, p);
    if forall id :: id in ts && Above(p, CategoryPath(nested, ts[id])) ==>
                      Depth(CategoryPath(nested, ts[id])) <= Depth(p) + 1 {
      forall id | id in under
        ensures id in near
      {
        AboveDepth(p, CategoryPath(nested, ts[id]));
      }
      assert near == under;
    } else {
      var id :| id in ts && Above(p, CategoryPath(nested, ts[id])) &&
                Depth(CategoryPath(nested, ts[id])) > Depth(p) + 1;
      assert id in under && id !in near;
      SmallerSubset(near, under, id);
    }
  }

  lemma SmallerSubset(a: set<int>, b: set<int>, x: int)
    requires a <= b && x in b && x !in a
    ensures |a| < |b|
  {
    var rest := b - {x};
    assert a <= rest;
    SubsetSize(a, rest);
  }

  /** A torrent three levels down is missing from the count its top category starts with. */
  lemma PopulateMissesGrandchildren()
    ensures var ts: Torrents := map[7 := "a/b/c"];
            && |Near(ts, true, PathOf("a"))| == 0
            && |Under(ts, true, PathOf("a"))| == 1
  {
    var ts: Torrents := map[7 := "a/b/c"];
    LastSlashIs("a", -1);
    LastSlashIs("a/b", 1);
    LastSlashIs("a/b/c", 3);
    assert "a/b/c"[..3] == "a/b" && "a/b/c"[4..] == "c" && "a/b"[..1] == "a" && "a/b"[2..] == "b";
    var p := PathOf("a");
    assert p == At(Root, "a");
    assert PathOf("a/b/c") == At(At(p, "b"), "c");
    assert Above(p, p) && Above(p, At(p, "b"));
    assert 7 in Under(ts, true, p);
    assert Near(ts, true, p) == {} && Under(ts, true, p) == {7};
  }

  // ----- session events -------------------------------------------------------------

  datatype Event =
    | TorrentAdded(id: int, category: string)
    | TorrentRemoved(id: int, category: string)
    | TorrentMoved(id: int, category: string, oldCategory: string)
    | CategoryAdded(category: string)
    | CategoryRemoved(category: string)

  /** What the session guarantees when it emits the signal. */
  ghost predicate Legal(nested: bool, paths: set<Path>, ts: Torrents, e: Event) {
    match e
    case TorrentAdded(id, category) => id !in ts && Known(paths, nested, category)
    case TorrentRemoved(id, category) => id in ts && ts[id] == category
    case TorrentMoved(id, category, oldCategory) => id in ts && ts[id] == oldCategory && Known(paths, nested, category)
    case CategoryAdded(category) =>
      var p := CategoryPath(nested, category);
      UsableName(nested, category) && p !in paths && p.up in paths && Under(ts, nested, p) == {}
    case CategoryRemoved(category) =>
      UsableName(nested, category) && Under(ts, nested, CategoryPath(nested, category)) == {}
  }

  lemma FiledStays(nested: bool, paths: set<Path>, ts: Torrents, e: Event)
    requires Filed(paths, nested, ts) && Legal(nested, paths, ts, e)
    ensures Filed(KeysNext(nested, paths, e), nested, TorrentsNext(ts, e))
  {
    if e.CategoryRemoved? {
      var p := CategoryPath(nested, e.category);
      forall id | id in ts
        ensures Known(KeysNext(nested, paths, e), nested, ts[id])
      {
        assert id !in Under(ts, nested, p);
      }
    }
  }

  function TorrentsNext(ts: Torrents, e: Event): Torrents {
    match e
    case TorrentAdded(id, category) => ts[id := category]
    case TorrentRemoved(id, _) => ts - {id}
    case TorrentMoved(id, category, _) => ts[id := category]
    case CategoryAdded(_) => ts
    case CategoryRemoved(_) => ts
  }

  ghost function KeysNext(nested: bool, paths: set<Path>, e: Event): set<Path> {
    match e
    case CategoryAdded(category) => paths + {CategoryPath(nested, category)}
    case CategoryRemoved(category) => set q | q in paths && !Above(CategoryPath(nested, category), q)
    case _ => paths
  }

  ghost function KeysAfter(nested: bool, paths: set<Path>, events: seq<Event>): set<Path>
    decreases |events|
  {
    if events == [] then paths else KeysAfter(nested, KeysNext(nested, paths, events[0]), events[1..])
  }

  ghost predicate LegalRun(nested: bool, paths: set<Path>, ts: Torrents, events: seq<Event>)
    decreases |events|
  {
    events != [] ==>
      && Legal(nested, paths, ts, events[0])
      && LegalRun(nested, KeysNext(nested, paths, events[0]), TorrentsNext(ts, events[0]), events[1..])
  }

  function TorrentsAfter(ts: Torrents, events: seq<Event>): Torrents
    decreases |events|
  {
    if events == [] then ts else TorrentsAfter(TorrentsNext(ts, events[0]), events[1..])
  }

  // ----- the drifts over whole runs ---------------------------------------------------------

  /** Torrent events move no drift; a new category's is 0; a removed one takes its subtree's with it, and
      what is left of them moves its parent's. */
  ghost function DriftsNext(drifts: map<Path, int>, nested: bool, e: Event): map<Path, int> {
    match e
    case CategoryAdded(category) => drifts[CategoryPath(nested, category) := 0]
    case CategoryRemoved(category) =>
      var p := CategoryPath(nested, category);
      if p in drifts then ParentMoved(drifts, p, Residue(drifts, p)) else drifts
    case _ => drifts
  }

  ghost function DriftsAfter(drifts: map<Path, int>, nested: bool, events: seq<Event>): map<Path, int>
    decreases |events|
  {
    if events == [] then drifts else DriftsAfter(DriftsNext(drifts, nested, events[0]), nested, events[1..])
  }

  lemma {:induction false} DriftsAfterConcat(drifts: map<Path, int>, nested: bool, a: seq<Event>, b: seq<Event>)
    ensures DriftsAfter(drifts, nested, a + b) == DriftsAfter(DriftsAfter(drifts, nested, a), nested, b)
    decreases |a|
  {
    if a == [] {
      assert a + b == b;
    } else {
      assert (a + b)[0] == a[0] && (a + b)[1..] == a[1..] + b;
      DriftsAfterConcat(DriftsNext(drifts, nested, a[0]), nested, a[1..], b);
    }
  }

  /** Nothing is filed below a removed category, so its residue is that of the drifts. */
  lemma ResidueOfDrifts(c: map<Path, int>, ts: Torrents, nested: bool, p: Path)
    requires p in c && p.At? && !Above(p, ALL) && Under(ts, nested, p) == {}
    ensures p in Drifts(c, ts, nested) && Residue(c, p) == Residue(Drifts(c, ts, nested), p)
  {
    var drifts := Drifts(c, ts, nested);
    forall q | Above(p, q)
      ensures q in c <==> q in drifts
      ensures q in c ==> c[q] == drifts[q]
    {
      NothingUnderDescendant(ts, nested, p, q);
    }
    ResidueLocal(c, drifts, p);
  }

  lemma ZeroNext(drifts: map<Path, int>, nested: bool, e: Event)
    requires AllZero(drifts)
    ensures AllZero(DriftsNext(drifts, nested, e))
  {
    if e.CategoryRemoved? && CategoryPath(nested, e.category) in drifts {
      ResidueZero(drifts, CategoryPath(nested, e.category));
    }
  }

  /** Exact counts stay exact. */
  lemma {:induction false} ZeroAfter(drifts: map<Path, int>, nested: bool, events: seq<Event>)
    requires AllZero(drifts)
    ensures AllZero(DriftsAfter(drifts, nested, events))
    decreases |events|
  {
    if events != [] {
      ZeroNext(drifts, nested, events[0]);
      ZeroAfter(DriftsNext(drifts, nested, events[0]), nested, events[1..]);
    }
  }
}
