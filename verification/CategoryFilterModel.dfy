/** The category filter tree of src/gui/categoryfiltermodel.cpp: population, lookup and session events.
    The session is the environment: each slot takes its torrents as the ghost map `ts` and states
    what the session guarantees when it emits the signal. */
module CategoryFilter {
  import opened Collections
  import opened CategoryPaths
  import opened CategoryTree
  import opened CategoryCounts

  const NAME_ALL := "All"
  const NAME_UNCATEGORIZED := "Uncategorized"

  class CategoryFilterModel {
    const rootItem: CategoryModelItem
    var isSubcategoriesEnabled: bool
    ghost var t: Forest

    constructor (categories: seq<string>, ts: Torrents, nested: bool)
      requires NoDup(categories) && forall c :: c in categories ==> UsableName(nested, c)
      requires forall id :: id in ts ==> ts[id] == "" || ts[id] in categories
      ensures Populated(categories, ts, nested)
    {
      var root := new CategoryModelItem("", 0);
      root.path := Root;
      rootItem := root;
      t := map[Root := root];
      isSubcategoriesEnabled := nested;
      new;
      Populate(categories, ts, nested);
    }

    /** `p` is one of the categories' nodes: in nested mode, one of their prefixes'. */
    ghost predicate Wanted(categories: seq<string>, nested: bool, p: Path) {
      p.At? && exists c :: c in categories && Above(p, CategoryPath(nested, c))
    }

    /** What populate() leaves: one node per wanted path, and counts that reach one level down. */
    ghost predicate Populated(categories: seq<string>, ts: Torrents, nested: bool)
      reads `t, `isSubcategoriesEnabled, rootItem`name, rootItem`childUids
      reads t.Values`parent, t.Values`children, t.Values`childUids, t.Values`path, t.Values`name, t.Values`torrentsCount
    {
      && Shaped() && isSubcategoriesEnabled == nested
      && Filed(t.Keys, nested, ts)
      && (forall p :: p in t <==> p == Root || Special(p) || Wanted(categories, nested, p))
      && (forall p :: p in t && p.At? ==>
                        Counts(t)[p] == if Special(p) then Total(ts, nested, p) else |Near(ts, nested, p)|)
    }

    /** The node at `p` is named and placed as its kind demands. */
    ghost predicate Fits(p: Path)
      requires p in t
      reads `t, `isSubcategoriesEnabled, t.Values`name
    {
      p.At? ==>
        && !Special(p.up)
        && t[p].name == (if p == ALL then NAME_ALL else if p == UNCATEGORIZED then NAME_UNCATEGORIZED else p.uid)
        && (Special(p) || p.uid != "")
        && (Special(p) || if isSubcategoriesEnabled then CleanPath(p) else p.up.Root?)
    }

    ghost predicate Shaped()
      reads `t, `isSubcategoriesEnabled, rootItem`name, rootItem`childUids
      reads t.Values`parent, t.Values`children, t.Values`childUids, t.Values`path, t.Values`name
    {
      && Linked(t)
      && Root in t && t[Root] == rootItem && rootItem.name == ""
      && ALL in t && UNCATEGORIZED in t
      && |rootItem.childUids| >= 2 && rootItem.childUids[..2] == [UID_ALL, UID_UNCATEGORIZED]
      && (forall p {:trigger Fits(p)} :: p in t ==> Fits(p))
    }

    method FindItem(fullName: string) returns (item: CategoryModelItem?)
      requires Shaped()
      ensures isSubcategoriesEnabled && !IsValidCategoryName(fullName) ==> item == rootItem
      ensures !isSubcategoriesEnabled || IsValidCategoryName(fullName) ==>
                var p := CategoryPath(isSubcategoriesEnabled, fullName);
                if p in t then item == t[p] && item.path == p else item == null
    {
      if fullName == "" {
        SecondChild();
        item := rootItem.ChildAt(1);
        return;
      }
      if !isSubcategoriesEnabled {
        ChildIsAt(t, Root, fullName);
        item := rootItem.Child(fullName);
        return;
      }
      item := rootItem;
      var expanded := ExpandCategory(fullName);
      for k := 0 to |expanded|
        invariant item != null && item.In(t)
        invariant item.path == if k == 0 then Root else PathOf(expanded[k - 1])
      {
        ExpandStep(fullName, k);
        var subcatName := ShortName(expanded[k]);
        ChildIsAt(t, item.path, subcatName);
        if subcatName !in item.children {
          if PathOf(fullName) in t {
            ExpandAbove(fullName, k);
            AncestorsPresent(t, PathOf(expanded[k]), PathOf(fullName));
          }
          return null;
        }
        item := item.Child(subcatName);
      }
    }

    lemma SecondChild()
      requires Shaped()
      ensures rootItem.ChildAt(0) == t[ALL] && rootItem.ChildAt(1) == t[UNCATEGORIZED]
    {
      assert NodeLinked(t, Root) && NodeLinked(t, UNCATEGORIZED) && NodeLinked(t, ALL);
      assert rootItem.childUids[0] == rootItem.childUids[..2][0];
      assert rootItem.childUids[1] == rootItem.childUids[..2][1];
    }

    /** A usable name denotes a node position that is neither special nor the root's. */
    lemma UsablePath(category: string)
      requires UsableName(isSubcategoriesEnabled, category)
      ensures var p := CategoryPath(isSubcategoriesEnabled, category);
              && !Above(p, ALL) && !Above(p, UNCATEGORIZED) && p.uid != "" && !Special(p.up)
              && (if isSubcategoriesEnabled then CleanPath(p) else p.up.Root?)
    {
      NothingUnderAll(isSubcategoriesEnabled, category);
      var p := CategoryPath(isSubcategoriesEnabled, category);
      assert Above(p.up, p.up) && Above(p, p);
      if isSubcategoriesEnabled {
        ValidNameCleanPath(category);
      }
    }

    /** `new CategoryModelItem(parent, name, count)`: the new node joins the tree under `parent`. */
    method AddCategoryNode(parent: CategoryModelItem, name: string, count: int) returns (item: CategoryModelItem)
      requires Shaped() && parent.In(t) && !Special(parent.path) && name !in parent.children && name != ""
      requires if isSubcategoriesEnabled then CleanPath(At(parent.path, name)) else parent.path.Root?
      modifies this`t, parent`children, parent`childUids, parent`torrentsCount
      ensures fresh(item) && item.path == At(parent.path, name) && item.path !in old(t)
      ensures item.childUids == []
      ensures t == old(t)[item.path := item]
      ensures Counts(t) == Grown(old(Counts(t)), item.path, count)
      ensures parent.childUids == old(parent.childUids) + [name]
      ensures Shaped()
    {
      ghost var t';
      item, t' := parent.NewChild(name, count, t);
      t := t';
      forall p | p in t
        ensures Fits(p)
      {
        if p != item.path { assert old(Fits(p)); }
      }
    }

    /** The node a new category goes under: its prefix's, or the root. */
    method FindParent(categoryName: string) returns (parent: CategoryModelItem)
      requires Shaped() && UsableName(isSubcategoriesEnabled, categoryName)
      requires CategoryPath(isSubcategoriesEnabled, categoryName).up in t
      ensures parent.In(t) && parent.path == CategoryPath(isSubcategoriesEnabled, categoryName).up
    {
      parent := rootItem;
      if isSubcategoriesEnabled {
        var expanded := ExpandCategory(categoryName);
        ExpandStep(categoryName, |expanded| - 1);
        if |expanded| > 1 {
          ValidPrefix(categoryName);
          parent := FindItem(expanded[|expanded| - 2]);
        }
      }
    }

    method CategoryAdded(ghost ts: Torrents, categoryName: string)
      requires Shaped() && UsableName(isSubcategoriesEnabled, categoryName)
      requires CategoryPath(isSubcategoriesEnabled, categoryName) !in t
      requires CategoryPath(isSubcategoriesEnabled, categoryName).up in t
      requires Under(ts, isSubcategoriesEnabled, CategoryPath(isSubcategoriesEnabled, categoryName)) == {}
      modifies `t, ParentNode(t, CategoryPath(isSubcategoriesEnabled, categoryName))`children
      modifies ParentNode(t, CategoryPath(isSubcategoriesEnabled, categoryName))`childUids
      modifies ParentNode(t, CategoryPath(isSubcategoriesEnabled, categoryName))`torrentsCount
      ensures Shaped()
      ensures var p := CategoryPath(isSubcategoriesEnabled, categoryName);
              && p in t && t == old(t)[p := t[p]] && fresh(t[p]) && t[p].childUids == []
              && t[p.up].childUids == old(t[p.up].childUids) + [p.uid]
      ensures Drifts(Counts(t), ts, isSubcategoriesEnabled)
              == Drifts(old(Counts(t)), ts, isSubcategoriesEnabled)
                 [CategoryPath(isSubcategoriesEnabled, categoryName) := 0]
    {
      ghost var p := CategoryPath(isSubcategoriesEnabled, categoryName);
      ghost var c := Counts(t);
      UsablePath(categoryName);
      var parent := FindParent(categoryName);
      ChildIsAt(t, p.up, p.uid);
      var item := AddCategoryNode(parent, if isSubcategoriesEnabled then ShortName(categoryName) else categoryName, 0);
      assert Counts(t) == c[p := 0];
      DriftsCategoryAdded(c, ts, isSubcategoriesEnabled, p);
    }

    method DestroyNode(item: CategoryModelItem, ghost p: Path)
      requires Linked(t) && item.In(t) && item.path == p && p.At?
      modifies `t, SubtreeNodes(t, p), ParentNode(t, p)
      ensures Linked(t) && t == Prune(old(t), p) && Counts(t) == Without(old(Counts(t)), p)
      ensures p.up in t
      ensures var uids := old(t[p.up].childUids);
              var i := IndexOf(uids, p.uid);
              i >= 0 && t[p.up].childUids == uids[..i] + uids[i + 1..]
      ensures t[p.up].name == old(t[p.up].name)
      ensures forall q :: q in t && q != p.up ==> unchanged(t[q])
    {
      NotAboveParent(p);
      t := item.Destroy(t);
    }

    method RemoveNode(item: CategoryModelItem)
      requires Shaped() && item.In(t) && item.path.At? && !Above(item.path, ALL) && !Above(item.path, UNCATEGORIZED)
      modifies `t, SubtreeNodes(t, item.path), ParentNode(t, item.path)
      ensures Shaped() && t == Prune(old(t), old(item.path))
      ensures Counts(t) == Without(old(Counts(t)), old(item.path))
      ensures old(item.path).up in t
      ensures var uids := old(t[item.path.up].childUids);
              var i := IndexOf(uids, old(item.path).uid);
              i >= 0 && t[old(item.path).up].childUids == uids[..i] + uids[i + 1..]
    {
      ghost var p := item.path;
      NotAboveParent(p);
      FrontUids(p);
      DestroyNode(item, p);
      assert p.up.At? ==> unchanged(rootItem);
      forall p | p in t
        ensures Fits(p)
      {
        assert old(Fits(p));
      }
    }

    /** Only the special nodes carry the root's first two uids. */
    lemma FrontUids(p: Path)
      requires Shaped() && p in t && p.At? && !Above(p, ALL) && !Above(p, UNCATEGORIZED)
      ensures p.up.Root? ==> rootItem.childUids[0] != p.uid && rootItem.childUids[1] != p.uid
      ensures p != Root && p.up in t
    {
      assert NodeLinked(t, p);
      assert rootItem.childUids[0] == rootItem.childUids[..2][0];
      assert rootItem.childUids[1] == rootItem.childUids[..2][1];
    }

    method CategoryRemoved(ghost ts: Torrents, categoryName: string)
      requires Shaped() && UsableName(isSubcategoriesEnabled, categoryName)
      requires Under(ts, isSubcategoriesEnabled, CategoryPath(isSubcategoriesEnabled, categoryName)) == {}
      modifies `t, SubtreeNodes(t, CategoryPath(isSubcategoriesEnabled, categoryName))
      modifies ParentNode(t, CategoryPath(isSubcategoriesEnabled, categoryName))
      ensures Shaped()
      ensures var p := CategoryPath(isSubcategoriesEnabled, categoryName);
              && t == Prune(old(t), p)
              && Counts(t) == (if p in old(t) then Without(old(Counts(t)), p) else old(Counts(t)))
              && (p in old(t) ==>
                    && p.up in t
                    && (var uids := old(t[p.up].childUids);
                        var i := IndexOf(uids, p.uid);
                        i >= 0 && t[p.up].childUids == uids[..i] + uids[i + 1..]))
      ensures var p := CategoryPath(isSubcategoriesEnabled, categoryName);
              Drifts(Counts(t), ts, isSubcategoriesEnabled) ==
              if p in old(t) then
                ParentMoved(Drifts(old(Counts(t)), ts, isSubcategoriesEnabled), p, Residue(old(Counts(t)), p))
              else Drifts(old(Counts(t)), ts, isSubcategoriesEnabled)
      ensures AllZero(Drifts(old(Counts(t)), ts, isSubcategoriesEnabled)) ==>
                AllZero(Drifts(Counts(t), ts, isSubcategoriesEnabled))
    {
      ghost var p := CategoryPath(isSubcategoriesEnabled, categoryName);
      ghost var c := Counts(t);
      UsablePath(categoryName);
      var item := FindItem(categoryName);
      if item == null {
        NothingAbsentAbove(p);
      } else {
        RemoveNode(item);
        DriftsCategoryRemoved(c, ts, isSubcategoriesEnabled, p);
      }
    }

    lemma NothingAbsentAbove(p: Path)
      requires Shaped() && p !in t
      ensures Prune(t, p) == t
    {
      forall q | q in t
        ensures !Above(p, q)
      {
        if Above(p, q) { AncestorsPresent(t, p, q); }
      }
    }

    /** One more torrent at `item`: itself and its ancestors. */
    method Increase(item: CategoryModelItem)
      requires Shaped() && item.In(t)
      modifies t.Values`torrentsCount
      ensures Shaped() && Counts(t) == Shifted(old(Counts(t)), item.path, 1)
    {
      item.IncreaseTorrentsCount(t);
    }

    /** One torrent less at `item`. */
    method Decrease(item: CategoryModelItem)
      requires Shaped() && item.In(t)
      modifies t.Values`torrentsCount
      ensures Shaped() && Counts(t) == Shifted(old(Counts(t)), item.path, -1)
    {
      item.DecreaseTorrentsCount(t);
    }

    /** The node of a torrent's category; the slots assert that there is one. */
    method FindKnown(category: string) returns (item: CategoryModelItem)
      requires Shaped() && Known(t.Keys, isSubcategoriesEnabled, category)
      ensures item.In(t) && item.path == CategoryPath(isSubcategoriesEnabled, category)
    {
      item := FindItem(category);
    }

    method TorrentAdded(ghost ts: Torrents, ghost id: int, category: string)
      requires Shaped() && Filed(t.Keys, isSubcategoriesEnabled, ts)
      requires id !in ts && Known(t.Keys, isSubcategoriesEnabled, category)
      modifies t.Values`torrentsCount
      ensures Shaped() && Filed(t.Keys, isSubcategoriesEnabled, ts[id := category])
      ensures Drifts(Counts(t), ts[id := category], isSubcategoriesEnabled)
              == Drifts(old(Counts(t)), ts, isSubcategoriesEnabled)
    {
      ghost var c := Counts(t);
      var item := FindKnown(category);
      Increase(item);
      SecondChild();
      Increase(rootItem.ChildAt(0));
      FiledUpdated(t.Keys, isSubcategoriesEnabled, ts, id, category);
      DriftsAdded(c, ts, isSubcategoriesEnabled, id, category);
    }

    method TorrentAboutToBeRemoved(ghost ts: Torrents, ghost id: int, category: string)
      requires Shaped() && Filed(t.Keys, isSubcategoriesEnabled, ts)
      requires id in ts && ts[id] == category
      modifies t.Values`torrentsCount
      ensures Shaped() && Filed(t.Keys, isSubcategoriesEnabled, ts - {id})
      ensures Drifts(Counts(t), ts - {id}, isSubcategoriesEnabled)
              == Drifts(old(Counts(t)), ts, isSubcategoriesEnabled)
    {
      ghost var c := Counts(t);
      var item := FindKnown(category);
      Decrease(item);
      SecondChild();
      Decrease(rootItem.ChildAt(0));
      FiledUpdated(t.Keys, isSubcategoriesEnabled, ts, id, category);
      DriftsRemoved(c, ts, isSubcategoriesEnabled, id);
    }

    method TorrentCategoryChanged(ghost ts: Torrents, ghost id: int, category: string, oldCategory: string)
      requires Shaped() && Filed(t.Keys, isSubcategoriesEnabled, ts)
      requires id in ts && ts[id] == oldCategory && Known(t.Keys, isSubcategoriesEnabled, category)
      modifies t.Values`torrentsCount
      ensures Shaped() && Filed(t.Keys, isSubcategoriesEnabled, ts[id := category])
      ensures Drifts(Counts(t), ts[id := category], isSubcategoriesEnabled)
              == Drifts(old(Counts(t)), ts, isSubcategoriesEnabled)
    {
      ghost var c := Counts(t);
      var item := FindKnown(oldCategory);
      Decrease(item);
      item := FindKnown(category);
      Increase(item);
      FiledUpdated(t.Keys, isSubcategoriesEnabled, ts, id, category);
      DriftsChanged(c, ts, isSubcategoriesEnabled, id, category);
    }

    /** Rebuild the tree; the order of `categories` does not matter. */
    method Populate(categories: seq<string>, ts: Torrents, nested: bool)
      requires Linked(t) && Root in t && t[Root] == rootItem && rootItem.name == ""
      requires NoDup(categories) && forall c :: c in categories ==> UsableName(nested, c)
      requires forall id :: id in ts ==> ts[id] == "" || ts[id] in categories
      modifies this, t.Values
      ensures Populated(categories, ts, nested)
    {
      PopulateSpecial(ts, nested);
      for i := 0 to |categories|
        invariant Shaped() && isSubcategoriesEnabled == nested && Counted(Counts(t), ts, nested)
        invariant forall p :: p in t && p.At? ==> fresh(t[p])
        invariant Holds(categories[..i], nested)
      {
        PopulateCategory(categories, i, ts, nested);
      }
      assert categories[..|categories|] == categories;
      PopulatedInFull(categories, ts, nested);
    }

    /** The tree has exactly the nodes the categories want, besides the root and the special ones. */
    ghost predicate Holds(categories: seq<string>, nested: bool)
      reads `t
    {
      && (forall p :: p in t ==> p == Root || Special(p) || Wanted(categories, nested, p))
      && (forall c :: c in categories ==> CategoryPath(nested, c) in t)
    }

    /** One turn of populate()'s loop. */
    method PopulateCategory(categories: seq<string>, i: nat, ts: Torrents, nested: bool)
      requires NoDup(categories) && (forall c :: c in categories ==> UsableName(nested, c)) && i < |categories|
      requires Shaped() && isSubcategoriesEnabled == nested && Counted(Counts(t), ts, nested)
      requires Holds(categories[..i], nested)
      modifies `t, t.Values`children, t.Values`childUids, t.Values`torrentsCount
      ensures Shaped() && Counted(Counts(t), ts, nested)
      ensures forall p :: p in t ==> if p in old(t) then t[p] == old(t[p]) else p.At? && fresh(t[p])
      ensures Holds(categories[..i + 1], nested)
    {
      if isSubcategoriesEnabled {
        PopulatePrefixes(categories[i], ts);
      } else {
        FlatAbsent(categories, i);
        PopulateOne(rootItem, categories[i], categories[i], ts);
        assert Above(CategoryPath(nested, categories[i]), CategoryPath(nested, categories[i]));
      }
      HoldsMore(old(t.Keys), categories, i, nested);
    }

    lemma HoldsMore(keys: set<Path>, categories: seq<string>, i: nat, nested: bool)
      requires i < |categories| && keys <= t.Keys
      requires forall p :: p in keys ==> p == Root || Special(p) || Wanted(categories[..i], nested, p)
      requires forall c :: c in categories[..i] ==> CategoryPath(nested, c) in keys
      requires forall p :: p in t && p !in keys ==> p.At? && Above(p, CategoryPath(nested, categories[i]))
      requires CategoryPath(nested, categories[i]) in t
      ensures Holds(categories[..i + 1], nested)
    {
      WantedGrows(categories, i, nested);
      assert categories[..i + 1] == categories[..i] + [categories[i]];
    }

    /** One node: the torrents whose category is exactly `category` are counted. */
    method PopulateOne(parent: CategoryModelItem, name: string, category: string, ts: Torrents)
      requires Shaped() && Counted(Counts(t), ts, isSubcategoriesEnabled)
      requires UsableName(isSubcategoriesEnabled, category)
      requires parent.In(t) && At(parent.path, name) == CategoryPath(isSubcategoriesEnabled, category)
      requires At(parent.path, name) !in t
      modifies `t, parent`children, parent`childUids, parent`torrentsCount
      ensures Shaped() && Counted(Counts(t), ts, isSubcategoriesEnabled)
      ensures t.Keys == old(t.Keys) + {CategoryPath(isSubcategoriesEnabled, category)}
      ensures forall p :: p in old(t) ==> t[p] == old(t[p])
      ensures fresh(t[CategoryPath(isSubcategoriesEnabled, category)])
    {
      var nested := isSubcategoriesEnabled;
      UsablePath(category);
      OwnByName(ts, nested, category);
      ChildIsAt(t, parent.path, name);
      KeysClosed();
      ghost var c, q := Counts(t), At(parent.path, name);
      var item := AddCategoryNode(parent, name, |set id | id in ts && ts[id] == category|);
      CountedGrows(c, Counts(t), ts, nested, q);
    }

    /** One step of the inner loop: the child for the k-th prefix, added when it is missing. */
    method ChildFor(ghost category: string, expanded: seq<string>, k: nat, parent: CategoryModelItem, ts: Torrents)
        returns (child: CategoryModelItem)
      requires Shaped() && isSubcategoriesEnabled && Counted(Counts(t), ts, true)
      requires UsableName(true, category) && expanded == Expand(category) && k < |expanded|
      requires parent.In(t) && parent.path == if k == 0 then Root else PathOf(expanded[k - 1])
      modifies `t, parent`children, parent`childUids, parent`torrentsCount
      ensures Shaped() && Counted(Counts(t), ts, true)
      ensures child.In(t) && child.path == PathOf(expanded[k])
      ensures old(t.Keys) <= t.Keys <= old(t.Keys) + PrefixPaths(category)
      ensures forall p :: p in t ==> if p in old(t) then t[p] == old(t[p]) else fresh(t[p])
    {
      var subcat := expanded[k];
      var subcatName := ShortName(subcat);
      PrefixFacts(category, k, subcat);
      ChildIsAt(t, parent.path, subcatName);
      if subcatName !in parent.children {
        PopulateOne(parent, subcatName, subcat, ts);
        ChildIsAt(t, parent.path, subcatName);
      }
      child := parent.Child(subcatName);
    }

    /** The inner loop: walk the prefixes of a category, adding the nodes that are missing. */
    method PopulatePrefixes(category: string, ts: Torrents)
      requires Shaped() && isSubcategoriesEnabled && Counted(Counts(t), ts, true) && UsableName(true, category)
      modifies `t, t.Values`children, t.Values`childUids, t.Values`torrentsCount
      ensures Shaped() && Counted(Counts(t), ts, true)
      ensures CategoryPath(true, category) in t && old(t.Keys) <= t.Keys
      ensures forall p :: p in t ==> if p in old(t) then t[p] == old(t[p]) else fresh(t[p])
      ensures forall p :: p in t ==> p in old(t) || Above(p, CategoryPath(true, category))
    {
      var expanded := ExpandCategory(category);
      WalkPrefixes(category, expanded, ts);
      PrefixesAbove(category);
    }

    method WalkPrefixes(ghost category: string, expanded: seq<string>, ts: Torrents)
      requires Shaped() && isSubcategoriesEnabled && Counted(Counts(t), ts, true) && UsableName(true, category)
      requires expanded == Expand(category)
      modifies `t, t.Values`children, t.Values`childUids, t.Values`torrentsCount
      ensures Shaped() && Counted(Counts(t), ts, true)
      ensures expanded != [] ==> PathOf(expanded[|expanded| - 1]) in t
      ensures old(t.Keys) <= t.Keys <= old(t.Keys) + PrefixPaths(category)
      ensures forall p :: p in t ==> if p in old(t) then t[p] == old(t[p]) else fresh(t[p])
    {
      var parent := rootItem;
      for k := 0 to |expanded|
        invariant Shaped() && Counted(Counts(t), ts, true)
        invariant parent.In(t) && parent.path == if k == 0 then Root else PathOf(expanded[k - 1])
        invariant old(t.Keys) <= t.Keys <= old(t.Keys) + PrefixPaths(category)
        invariant forall p :: p in t ==> if p in old(t) then t[p] == old(t[p]) else fresh(t[p])
      {
        parent := ChildFor(category, expanded, k, parent, ts);
      }
    }

    ghost function PrefixPaths(category: string): set<Path> {
      set prefix | prefix in Expand(category) :: PathOf(prefix)
    }

    lemma PrefixesAbove(category: string)
      requires category != ""
      ensures Expand(category) != [] && Expand(category)[|Expand(category)| - 1] == category
      ensures forall p :: p in PrefixPaths(category) ==> Above(p, PathOf(category))
    {
      forall prefix | prefix in Expand(category)
        ensures Above(PathOf(prefix), PathOf(category))
      {
        var k :| 0 <= k < |Expand(category)| && Expand(category)[k] == prefix;
        ExpandAbove(category, k);
      }
    }

    lemma KeysClosed()
      requires Linked(t)
      ensures forall p :: p in t && p.At? ==> p.up in t
    {
      forall p | p in t && p.At?
        ensures p.up in t
      {
        assert NodeLinked(t, p);
      }
    }

    lemma PrefixFacts(category: string, k: nat, prefix: string)
      requires UsableName(true, category) && k < |Expand(category)| && prefix == Expand(category)[k]
      ensures UsableName(true, prefix) && PathOf(prefix) in PrefixPaths(category)
      ensures PathOf(prefix) == At(if k == 0 then Root else PathOf(Expand(category)[k - 1]), ShortName(prefix))
    {
      ExpandStep(category, k);
      UsablePrefix(category, k);
    }

    lemma WantedGrows(categories: seq<string>, i: nat, nested: bool)
      requires i < |categories|
      ensures forall p: Path :: p.At? && Above(p, CategoryPath(nested, categories[i])) ==>
                Wanted(categories[..i + 1], nested, p)
      ensures forall p :: Wanted(categories[..i], nested, p) ==> Wanted(categories[..i + 1], nested, p)
    {
      assert categories[i] in categories[..i + 1];
      assert forall c :: c in categories[..i] ==> c in categories[..i + 1];
    }

    lemma FlatAbsent(categories: seq<string>, i: nat)
      requires NoDup(categories) && i < |categories| && UsableName(false, categories[i])
      requires forall c :: c in categories ==> UsableName(false, c)
      requires Holds(categories[..i], false)
      ensures CategoryPath(false, categories[i]) !in t
    {
      var p := At(Root, categories[i]);
      assert Above(UNCATEGORIZED, UNCATEGORIZED);
      assert !Above(p, Root);
      forall c | c in categories[..i]
        ensures !Above(p, CategoryPath(false, c))
      {
        assert c in categories && c != categories[i];
      }
    }

    lemma PopulatedInFull(categories: seq<string>, ts: Torrents, nested: bool)
      requires Shaped() && isSubcategoriesEnabled == nested && Counted(Counts(t), ts, nested)
      requires forall c :: c in categories ==> UsableName(nested, c)
      requires forall id :: id in ts ==> ts[id] == "" || ts[id] in categories
      requires Holds(categories, nested)
      ensures Populated(categories, ts, nested)
    {
      forall p | Wanted(categories, nested, p)
        ensures p in t
      {
        var c :| c in categories && Above(p, CategoryPath(nested, c));
        AncestorsPresent(t, p, CategoryPath(nested, c));
      }
      forall p | p in t && p.At?
        ensures Counts(t)[p] == if Special(p) then Total(ts, nested, p) else |Near(ts, nested, p)|
      {
        NearInAll(ts, nested, t.Keys, p);
        UncategorizedCount(ts, nested);
      }
    }

    /** clear(), then the "All" and "Uncategorized" items. */
    method PopulateSpecial(ts: Torrents, nested: bool)
      requires Linked(t) && Root in t && t[Root] == rootItem && rootItem.name == ""
      requires forall id :: id in ts ==> ts[id] == "" || UsableName(nested, ts[id])
      modifies this, t.Values
      ensures Shaped() && isSubcategoriesEnabled == nested && Counted(Counts(t), ts, nested)
      ensures t.Keys == {Root, ALL, UNCATEGORIZED}
      ensures forall p :: p in t && p.At? ==> fresh(t[p])
    {
      isSubcategoriesEnabled := nested;
      ClearRoot();
      AddSpecials(|ts|, |set id | id in ts && ts[id] == ""|);
      CountedStart(Counts(t), ts, nested);
      StartShape();
    }

    method AddSpecials(allCount: int, uncategorizedCount: int)
      requires Linked(t) && t.Keys == {Root} && t[Root] == rootItem && rootItem.name == ""
      requires rootItem.childUids == [] && rootItem.children == map[]
      modifies `t, rootItem`children, rootItem`childUids, rootItem`torrentsCount
      ensures Linked(t) && t.Keys == {Root, ALL, UNCATEGORIZED} && t[Root] == rootItem && rootItem.name == ""
      ensures rootItem.childUids == [UID_ALL, UID_UNCATEGORIZED] && fresh(t[ALL]) && fresh(t[UNCATEGORIZED])
      ensures t[ALL].name == NAME_ALL && t[UNCATEGORIZED].name == NAME_UNCATEGORIZED
      ensures Counts(t)[ALL] == allCount && Counts(t)[UNCATEGORIZED] == uncategorizedCount
    {
      AddSpecial(UID_ALL, NAME_ALL, allCount);
      AddSpecial(UID_UNCATEGORIZED, NAME_UNCATEGORIZED, uncategorizedCount);
    }

    lemma StartShape()
      requires Linked(t) && t.Keys == {Root, ALL, UNCATEGORIZED} && t[Root] == rootItem && rootItem.name == ""
      requires rootItem.childUids == [UID_ALL, UID_UNCATEGORIZED]
      requires t[ALL].name == NAME_ALL && t[UNCATEGORIZED].name == NAME_UNCATEGORIZED
      ensures Shaped()
    {
    }

    method ClearRoot()
      requires Linked(t) && Root in t && t[Root] == rootItem && rootItem.name == ""
      modifies `t, t.Values
      ensures Linked(t) && t.Keys == {Root} && t[Root] == rootItem && rootItem.name == ""
      ensures rootItem.childUids == [] && rootItem.children == map[]
    {
      RootAboveAll(t);
      t := rootItem.Clear(t);
      assert t.Keys == {Root};
    }

    method AddSpecial(uid: string, name: string, count: int)
      requires Linked(t) && Root in t && t[Root] == rootItem && uid !in rootItem.children && rootItem.name == ""
      modifies `t, rootItem`children, rootItem`childUids, rootItem`torrentsCount
      ensures Linked(t) && Root in t && t[Root] == rootItem && rootItem.name == ""
      ensures At(Root, uid) in t && t == old(t)[At(Root, uid) := t[At(Root, uid)]] && fresh(t[At(Root, uid)])
      ensures t[At(Root, uid)].name == name
      ensures Counts(t) == Grown(old(Counts(t)), At(Root, uid), count)
      ensures rootItem.childUids == old(rootItem.childUids) + [uid]
      ensures rootItem.children.Keys == old(rootItem.children.Keys) + {uid}
    {
      ghost var c := Counts(t);
      var item := new CategoryModelItem(name, count);
      ghost var t' := rootItem.AddChild(uid, item, t);
      assert Counts(t') == Grown(c, At(Root, uid), count);
      t := t';
    }

    // ----- names, nodes and rows ----------------------------------------------------

    /** The name of a category node leads FindItem back to the node. */
    lemma NameFindsNode(n: CategoryModelItem)
      requires Shaped() && n.In(t) && n.path.At? && !Special(n.path)
      ensures CategoryPath(isSubcategoriesEnabled, n.FullName(t)) == n.path
      ensures isSubcategoriesEnabled ==> IsValidCategoryName(n.FullName(t))
    {
      assert Fits(n.path);
      if isSubcategoriesEnabled {
        NamesAbove(n.path);
        FullNameIsPathName(t, n);
        PathOfFullName(n.path);
      } else {
        assert NodeLinked(t, n.path);
      }
    }

    /** In nested mode every node on the way to a category node is named by its uid. */
    lemma {:induction false} NamesAbove(p: Path)
      requires Shaped() && isSubcategoriesEnabled && p in t && p.At? && !Special(p)
      ensures forall q :: q in t && q.At? && Above(q, p) ==> t[q].name == q.uid && q.uid != ""
      decreases p
    {
      assert Fits(p) && NodeLinked(t, p);
      if p.up.At? {
        NamesAbove(p.up);
      }
      forall q | q in t && q.At? && Above(q, p)
        ensures t[q].name == q.uid && q.uid != ""
      {
        assert q == p || Above(q, p.up);
      }
    }

    /** The node of a present category carries that category's name. */
    lemma NodeHasName(category: string)
      requires Shaped() && UsableName(isSubcategoriesEnabled, category)
      requires CategoryPath(isSubcategoriesEnabled, category) in t
      ensures t[CategoryPath(isSubcategoriesEnabled, category)].FullName(t) == category
    {
      var p := CategoryPath(isSubcategoriesEnabled, category);
      UsablePath(category);
      assert Above(ALL, ALL) && Above(UNCATEGORIZED, UNCATEGORIZED);
      NameFindsNode(t[p]);
      assert Fits(p) && NodeLinked(t, p);
      if isSubcategoriesEnabled {
        FullNameOfPathOf(category);
        NamesAbove(p);
        FullNameIsPathName(t, t[p]);
      }
    }

    /** Node to row and back: it works for every node but the special ones, whose uids are not their
        names. */
    lemma NodeHasRow(n: CategoryModelItem)
      requires Shaped() && n.In(t) && n.path.At?
      ensures n.parent != null
      ensures 0 <= n.Pos() < n.parent.ChildCount() && n.parent.ChildAt(n.Pos()) == n <==> !Special(n.path)
    {
      assert Fits(n.path) && NodeLinked(t, n.path);
      SpecialNames();
      RowIffNamed(t, n);
      if !Special(n.path) {
        RowRoundTrip(t, n);
      }
    }

    lemma SpecialNames()
      ensures NAME_ALL != UID_ALL && NAME_UNCATEGORIZED != UID_UNCATEGORIZED
    {
    }

    /** "All" is row 0 of the root, but its own row number is that of the category named "All", and -1
        without one. */
    lemma AllHasNoRow()
      requires Shaped()
      ensures rootItem.ChildAt(0) == t[ALL]
      ensures t[ALL].Pos() != 0
      ensures if At(Root, NAME_ALL) in t then rootItem.ChildAt(t[ALL].Pos()) == t[At(Root, NAME_ALL)]
              else t[ALL].Pos() == -1
    {
      SecondChild();
      SpecialNames();
      assert Fits(ALL) && NodeLinked(t, ALL) && NodeLinked(t, Root);
      ChildIsAt(t, Root, NAME_ALL);
      var i := t[ALL].Pos();
      if i >= 0 {
        UidsMatchChildren(rootItem.childUids, rootItem.children.Keys);
      }
    }

    // ----- whole runs ---------------------------------------------------------------

    /** Replay session events in order: the drifts, from whatever they were, depend on the category events
        only, and a tree that was exact stays exact. */
    method Replay(ghost ts: Torrents, events: seq<Event>) returns (ghost ts': Torrents)
      requires Shaped() && Filed(t.Keys, isSubcategoriesEnabled, ts)
      requires LegalRun(isSubcategoriesEnabled, t.Keys, ts, events)
      modifies `t, t.Values
      ensures Shaped() && Filed(t.Keys, isSubcategoriesEnabled, ts')
      ensures ts' == TorrentsAfter(ts, events) && t.Keys == KeysAfter(isSubcategoriesEnabled, old(t.Keys), events)
      ensures forall p :: p in t ==> t[p] in old(t.Values) || fresh(t[p])
      ensures Drifts(Counts(t), ts', isSubcategoriesEnabled) ==
              DriftsAfter(Drifts(old(Counts(t)), ts, isSubcategoriesEnabled), isSubcategoriesEnabled, events)
      ensures AllZero(Drifts(old(Counts(t)), ts, isSubcategoriesEnabled)) ==>
                AllZero(Drifts(Counts(t), ts', isSubcategoriesEnabled))
      decreases |events|
    {
      ts' := ts;
      if events != [] {
        HandleEvent(ts, events[0]);
        ts' := Replay(TorrentsNext(ts, events[0]), events[1..]);
      }
    }

    method HandleEvent(ghost ts: Torrents, e: Event)
      requires Shaped() && Filed(t.Keys, isSubcategoriesEnabled, ts)
      requires Legal(isSubcategoriesEnabled, t.Keys, ts, e)
      modifies `t, t.Values
      ensures Shaped() && Filed(t.Keys, isSubcategoriesEnabled, TorrentsNext(ts, e))
      ensures t.Keys == KeysNext(isSubcategoriesEnabled, old(t.Keys), e)
      ensures forall p :: p in t ==> if p in old(t) then t[p] == old(t[p]) else fresh(t[p])
      ensures Drifts(Counts(t), TorrentsNext(ts, e), isSubcategoriesEnabled) ==
              DriftsNext(Drifts(old(Counts(t)), ts, isSubcategoriesEnabled), isSubcategoriesEnabled, e)
      ensures AllZero(Drifts(old(Counts(t)), ts, isSubcategoriesEnabled)) ==>
                AllZero(Drifts(Counts(t), TorrentsNext(ts, e), isSubcategoriesEnabled))
    {
      ghost var drifts := Drifts(Counts(t), ts, isSubcategoriesEnabled);
      if e.CategoryAdded? || e.CategoryRemoved? {
        HandleCategoryEvent(ts, e);
      } else {
        HandleTorrentEvent(ts, e);
      }
      if AllZero(drifts) {
        ZeroNext(drifts, isSubcategoriesEnabled, e);
      }
    }

    method HandleTorrentEvent(ghost ts: Torrents, e: Event)
      requires Shaped() && Filed(t.Keys, isSubcategoriesEnabled, ts)
      requires Legal(isSubcategoriesEnabled, t.Keys, ts, e) && !e.CategoryAdded? && !e.CategoryRemoved?
      modifies t.Values`torrentsCount
      ensures Shaped() && Filed(t.Keys, isSubcategoriesEnabled, TorrentsNext(ts, e))
      ensures Drifts(Counts(t), TorrentsNext(ts, e), isSubcategoriesEnabled)
              == Drifts(old(Counts(t)), ts, isSubcategoriesEnabled)
    {
      match e
      case TorrentAdded(id, category) =>
        TorrentAdded(ts, id, category);
      case TorrentRemoved(id, category) =>
        TorrentAboutToBeRemoved(ts, id, category);
      case TorrentMoved(id, category, oldCategory) =>
        TorrentCategoryChanged(ts, id, category, oldCategory);
    }

    method HandleCategoryEvent(ghost ts: Torrents, e: Event)
      requires Shaped() && Filed(t.Keys, isSubcategoriesEnabled, ts)
      requires Legal(isSubcategoriesEnabled, t.Keys, ts, e) && (e.CategoryAdded? || e.CategoryRemoved?)
      modifies `t, t.Values
      ensures Shaped() && Filed(t.Keys, isSubcategoriesEnabled, ts)
      ensures t.Keys == KeysNext(isSubcategoriesEnabled, old(t.Keys), e)
      ensures forall p :: p in t ==> if p in old(t) then t[p] == old(t[p]) else fresh(t[p])
      ensures Drifts(Counts(t), ts, isSubcategoriesEnabled) ==
              DriftsNext(Drifts(old(Counts(t)), ts, isSubcategoriesEnabled), isSubcategoriesEnabled, e)
    {
      if e.CategoryAdded? {
        HandleAddedEvent(ts, e);
      } else {
        HandleRemovedEvent(ts, e);
      }
    }

    method HandleAddedEvent(ghost ts: Torrents, e: Event)
      requires Shaped() && Filed(t.Keys, isSubcategoriesEnabled, ts)
      requires Legal(isSubcategoriesEnabled, t.Keys, ts, e) && e.CategoryAdded?
      modifies `t, t.Values
      ensures Shaped() && Filed(t.Keys, isSubcategoriesEnabled, ts)
      ensures t.Keys == KeysNext(isSubcategoriesEnabled, old(t.Keys), e)
      ensures forall p :: p in t ==> if p in old(t) then t[p] == old(t[p]) else fresh(t[p])
      ensures Drifts(Counts(t), ts, isSubcategoriesEnabled) ==
              DriftsNext(Drifts(old(Counts(t)), ts, isSubcategoriesEnabled), isSubcategoriesEnabled, e)
    {
      FiledStays(isSubcategoriesEnabled, t.Keys, ts, e);
      CategoryAdded(ts, e.category);
    }

    method HandleRemovedEvent(ghost ts: Torrents, e: Event)
      requires Shaped() && Filed(t.Keys, isSubcategoriesEnabled, ts)
      requires Legal(isSubcategoriesEnabled, t.Keys, ts, e) && e.CategoryRemoved?
      modifies `t, t.Values
      ensures Shaped() && Filed(t.Keys, isSubcategoriesEnabled, ts)
      ensures t.Keys == KeysNext(isSubcategoriesEnabled, old(t.Keys), e)
      ensures forall p :: p in t ==> if p in old(t) then t[p] == old(t[p]) else fresh(t[p])
      ensures Drifts(Counts(t), ts, isSubcategoriesEnabled) ==
              DriftsNext(Drifts(old(Counts(t)), ts, isSubcategoriesEnabled), isSubcategoriesEnabled, e)
    {
      FiledStays(isSubcategoriesEnabled, t.Keys, ts, e);
      RemovedResidue(Counts(t), ts, e);
      CategoryRemoved(ts, e.category);
    }

    lemma RemovedResidue(c: map<Path, int>, ts: Torrents, e: Event)
      requires e.CategoryRemoved? ==>
                 && UsableName(isSubcategoriesEnabled, e.category)
                 && Under(ts, isSubcategoriesEnabled, CategoryPath(isSubcategoriesEnabled, e.category)) == {}
      ensures e.CategoryRemoved? && CategoryPath(isSubcategoriesEnabled, e.category) in c ==>
                var p := CategoryPath(isSubcategoriesEnabled, e.category);
                var drifts := Drifts(c, ts, isSubcategoriesEnabled);
                p in drifts && Residue(c, p) == Residue(drifts, p)
      ensures e.CategoryRemoved? ==>
                (CategoryPath(isSubcategoriesEnabled, e.category) in c <==>
                 CategoryPath(isSubcategoriesEnabled, e.category) in Drifts(c, ts, isSubcategoriesEnabled))
    {
      if e.CategoryRemoved? && CategoryPath(isSubcategoriesEnabled, e.category) in c {
        UsablePath(e.category);
        ResidueOfDrifts(c, ts, isSubcategoriesEnabled, CategoryPath(isSubcategoriesEnabled, e.category));
      }
    }
  }
}
