/** The category operations of BitTorrent::Session (src/base/bittorrent/session.cpp) and of its torrents,
    with the signals they emit: every run of them is a legal run of events for the category model. */
module CategorySession {
  import opened Collections
  import opened CategoryPaths
  import opened CategoryTree
  import opened CategoryCounts
  import opened CategoryFilter

  /** The nodes the model should have. */
  ghost function Nodes(nested: bool, categories: set<string>): set<Path> {
    {Root, ALL, UNCATEGORIZED} + set c | c in categories :: CategoryPath(nested, c)
  }

  /** Every prefix of a category is a category. */
  ghost predicate Closed(categories: set<string>) {
    forall c, k: nat :: c in categories && k < |Expand(c)| ==> Expand(c)[k] in categories
  }

  /** Valid names, with all their prefixes in nested mode, and among them every torrent's category. */
  ghost predicate SessionSound(nested: bool, categories: set<string>, ts: Torrents) {
    && (forall c :: c in categories ==> c != "" && IsValidCategoryName(c))
    && (nested ==> Closed(categories))
    && (forall id :: id in ts ==> ts[id] == "" || ts[id] in categories)
  }

  /** The model takes the one-character name U+0001 for "Uncategorized", and what lies below it for
      something below that. */
  predicate Collides(nested: bool, name: string) {
    name == "\U{01}" || (nested && IsSubcategory(name, "\U{01}"))
  }

  ghost predicate Apart(nested: bool, categories: set<string>) {
    forall c :: c in categories ==> !Collides(nested, c)
  }

  ghost predicate SessionValid(nested: bool, categories: set<string>, ts: Torrents) {
    SessionSound(nested, categories, ts) && forall c :: c in categories ==> UsableName(nested, c)
  }

  /** QString::startsWith(name + '/'). */
  predicate IsSubcategory(c: string, name: string) {
    |c| > |name| && c[..|name|] == name && c[|name|] == '/'
  }

  /** TorrentImpl::belongsToCategory. */
  predicate BelongsTo(nested: bool, c: string, name: string) {
    if c == "" then name == ""
    else IsValidCategoryName(name) && (c == name || (nested && IsSubcategory(c, name)))
  }

  lemma SubcategoryIs(c: string, name: string)
    ensures IsSubcategory(c, name) <==> name + "/" <= c
  {
  }

  // ----- subcategories are descendants --------------------------------------------------

  lemma {:induction false} SubcategoryAbove(c: string, name: string)
    ensures Above(PathOf(name), PathOf(c)) <==> c == name || IsSubcategory(c, name)
    decreases |c|
  {
    FullNameOfPathOf(name);
    FullNameOfPathOf(c);
    var i := LastSlash(c);
    if i >= 0 {
      SubcategoryAbove(c[..i], name);
      if IsSubcategory(c, name) {
        assert |name| <= i;
        assert c[..i][..|name|] == c[..|name|];
        assert |name| == i ==> c[..i] == name;
      }
    }
  }

  /** A node lies at or below a category's node exactly when its category is that one or, in nested
      mode, one of its subcategories. */
  lemma BelowIsSubcategory(nested: bool, c: string, name: string)
    requires c != "" && name != ""
    ensures Above(CategoryPath(nested, name), CategoryPath(nested, c)) <==>
            c == name || (nested && IsSubcategory(c, name))
  {
    if nested {
      SubcategoryAbove(c, name);
    }
  }

  lemma UncategorizedPath()
    ensures CategoryPath(true, UID_UNCATEGORIZED) == UNCATEGORIZED == CategoryPath(false, UID_UNCATEGORIZED)
  {
    LastSlashIs(UID_UNCATEGORIZED, -1);
  }

  /** Exactly the colliding names are filed at or below "Uncategorized". */
  lemma CollidesIff(nested: bool, name: string)
    requires name != ""
    ensures Above(UNCATEGORIZED, CategoryPath(nested, name)) <==> Collides(nested, name)
    ensures IsValidCategoryName(name) ==> (UsableName(nested, name) <==> !Collides(nested, name))
  {
    UncategorizedPath();
    BelowIsSubcategory(nested, name, UID_UNCATEGORIZED);
  }

  lemma SoundApart(nested: bool, categories: set<string>, ts: Torrents)
    requires SessionSound(nested, categories, ts)
    ensures SessionValid(nested, categories, ts) <==> Apart(nested, categories)
  {
    forall c | c in categories
      ensures UsableName(nested, c) <==> !Collides(nested, c)
    {
      CollidesIff(nested, c);
    }
  }

  /** A category's node is already taken, which addChild asserts it is not, exactly when the category is
      there already or its name is the uid of "Uncategorized". */
  lemma NodeTakenIff(nested: bool, categories: set<string>, ts: Torrents, name: string)
    requires SessionSound(nested, categories, ts) && name != "" && IsValidCategoryName(name)
    ensures CategoryPath(nested, name) in Nodes(nested, categories) <==>
            name in categories || name == UID_UNCATEGORIZED
  {
    UncategorizedPath();
    NotAllNorRoot(nested, name);
    if CategoryPath(nested, name) == UNCATEGORIZED {
      SamePath(nested, name, UID_UNCATEGORIZED);
    }
    forall c | c in categories && CategoryPath(nested, c) == CategoryPath(nested, name)
      ensures c == name
    {
      SamePath(nested, c, name);
    }
  }

  lemma NotAllNorRoot(nested: bool, name: string)
    requires name != "" && IsValidCategoryName(name)
    ensures CategoryPath(nested, name) != ALL && CategoryPath(nested, name) != Root
  {
    if nested {
      ValidNameCleanPath(name);
    }
  }

  /** "Uncategorized" counts the torrents without category exactly when no torrent's category collides. */
  lemma UncategorizedExactIff(nested: bool, ts: Torrents)
    ensures Total(ts, nested, UNCATEGORIZED) == |set id | id in ts && ts[id] == ""| <==>
            forall id :: id in ts ==> !Collides(nested, ts[id])
  {
    var blank := set id | id in ts && ts[id] == "";
    var under := Under(ts, nested, UNCATEGORIZED);
    assert Above(UNCATEGORIZED, UNCATEGORIZED);
    forall id | id in ts
      ensures id in under <==> ts[id] == "" || Collides(nested, ts[id])
    {
      if ts[id] != "" {
        CollidesIff(nested, ts[id]);
      }
    }
    if forall id :: id in ts ==> !Collides(nested, ts[id]) {
      assert forall id :: id in under <==> id in blank;
      assert under == blank;
    } else {
      var id :| id in ts && Collides(nested, ts[id]);
      assert ts[id] != "" && id in under && id !in blank;
      assert forall x :: x in blank ==> x in under;
      SmallerSubset(blank, under, id);
    }
  }

  lemma {:induction false} PrefixIndex(c: string, name: string) returns (k: nat)
    requires c == name || IsSubcategory(c, name)
    ensures k < |Expand(c)| && Expand(c)[k] == name
  {
    SubcategoryAbove(c, name);
    k := PrefixOfAncestor(c, PathOf(name));
    FullNameOfPathOf(name);
    FullNameOfPathOf(Expand(c)[k]);
  }

  // ----- runs ---------------------------------------------------------------------------

  lemma {:induction false} RunConcat(nested: bool, paths: set<Path>, ts: Torrents, a: seq<Event>, b: seq<Event>)
    ensures LegalRun(nested, paths, ts, a + b) <==>
            LegalRun(nested, paths, ts, a) && LegalRun(nested, KeysAfter(nested, paths, a), TorrentsAfter(ts, a), b)
    ensures KeysAfter(nested, paths, a + b) == KeysAfter(nested, KeysAfter(nested, paths, a), b)
    ensures TorrentsAfter(ts, a + b) == TorrentsAfter(TorrentsAfter(ts, a), b)
    decreases |a|
  {
    if a == [] {
      assert a + b == b;
    } else {
      assert (a + b)[1..] == a[1..] + b && (a + b)[0] == a[0];
      RunConcat(nested, KeysNext(nested, paths, a[0]), TorrentsNext(ts, a[0]), a[1..], b);
    }
  }

  lemma RunOf(nested: bool, paths: set<Path>, ts: Torrents, e: Event)
    ensures LegalRun(nested, paths, ts, [e]) <==> Legal(nested, paths, ts, e)
    ensures KeysAfter(nested, paths, [e]) == KeysNext(nested, paths, e)
    ensures TorrentsAfter(ts, [e]) == TorrentsNext(ts, e)
  {
    assert [e][1..] == [];
  }

  /** The signals are legal, and lead from one state of the session to the other. */
  ghost predicate Leads(nested: bool, from: set<string>, ts: Torrents, events: seq<Event>, to: set<string>,
                        ts': Torrents) {
    && LegalRun(nested, Nodes(nested, from), ts, events)
    && KeysAfter(nested, Nodes(nested, from), events) == Nodes(nested, to)
    && TorrentsAfter(ts, events) == ts'
  }

  lemma LeadsOn(nested: bool, a: set<string>, ts: Torrents, events: seq<Event>, b: set<string>, ts1: Torrents,
                more: seq<Event>, c: set<string>, ts2: Torrents)
    requires Leads(nested, a, ts, events, b, ts1) && Leads(nested, b, ts1, more, c, ts2)
    ensures Leads(nested, a, ts, events + more, c, ts2)
  {
    RunConcat(nested, Nodes(nested, a), ts, events, more);
  }

  /** The same, as long as no name collides. */
  ghost predicate Told(nested: bool, from: set<string>, ts: Torrents, events: seq<Event>, to: set<string>,
                       ts': Torrents) {
    Apart(nested, from) && Apart(nested, to) ==> Leads(nested, from, ts, events, to, ts')
  }

  lemma ToldOn(nested: bool, a: set<string>, ts: Torrents, events: seq<Event>, b: set<string>, ts1: Torrents,
               more: seq<Event>, c: set<string>, ts2: Torrents)
    requires Told(nested, a, ts, events, b, ts1) && Told(nested, b, ts1, more, c, ts2) && (b <= a || b <= c)
    ensures Told(nested, a, ts, events + more, c, ts2)
  {
    if Apart(nested, a) && Apart(nested, c) {
      LeadsOn(nested, a, ts, events, b, ts1, more, c, ts2);
    }
  }

  // ----- single signals -----------------------------------------------------------------

  lemma ValidFiled(nested: bool, categories: set<string>, ts: Torrents)
    requires SessionValid(nested, categories, ts)
    ensures Filed(Nodes(nested, categories), nested, ts)
  {
  }

  /** A category whose proper prefixes are there already has no node yet, and nothing is filed below it. */
  lemma NewCategory(nested: bool, categories: set<string>, ts: Torrents, c: string)
    requires SessionValid(nested, categories, ts) && UsableName(nested, c) && c !in categories
    requires nested ==> forall k: nat :: k < |Expand(c)| - 1 ==> Expand(c)[k] in categories
    ensures Legal(nested, Nodes(nested, categories), ts, CategoryAdded(c))
  {
    var p := CategoryPath(nested, c);
    NothingUnderAll(nested, c);
    assert Above(p, p);
    forall d | d in categories
      ensures !Above(p, CategoryPath(nested, d))
    {
      BelowIsSubcategory(nested, d, c);
      if nested && (d == c || IsSubcategory(d, c)) {
        var k := PrefixIndex(d, c);
      }
    }
    forall id | id in ts
      ensures id !in Under(ts, nested, p)
    {
      NotUnderUncategorized(nested, c);
    }
    assert Under(ts, nested, p) == {};
    NotUnderUncategorized(nested, c);
    if nested {
      ExpandStep(c, |Expand(c)| - 1);
    }
  }

  lemma NotUnderUncategorized(nested: bool, c: string)
    requires UsableName(nested, c)
    ensures !Above(CategoryPath(nested, c), UNCATEGORIZED) && !Above(CategoryPath(nested, c), ALL)
    ensures CategoryPath(nested, c) != Root
  {
    NothingUnderAll(nested, c);
    var p := CategoryPath(nested, c);
    assert Above(UNCATEGORIZED, UNCATEGORIZED) && Above(ALL, ALL) && Above(p, p);
  }

  lemma NodesGrow(nested: bool, categories: set<string>, c: string)
    ensures Nodes(nested, categories + {c}) == Nodes(nested, categories) + {CategoryPath(nested, c)}
  {
  }

  lemma SoundAdds(nested: bool, categories: set<string>, ts: Torrents, c: string)
    requires SessionSound(nested, categories, ts) && c != "" && IsValidCategoryName(c)
    requires nested ==> forall k: nat :: k < |Expand(c)| - 1 ==> Expand(c)[k] in categories
    ensures SessionSound(nested, categories + {c}, ts)
  {
    ParentsShorter(c);
  }

  lemma CategoryAdds(nested: bool, categories: set<string>, ts: Torrents, c: string)
    requires SessionSound(nested, categories, ts) && c != "" && IsValidCategoryName(c) && c !in categories
    requires nested ==> forall k: nat :: k < |Expand(c)| - 1 ==> Expand(c)[k] in categories
    ensures Told(nested, categories, ts, [CategoryAdded(c)], categories + {c}, ts)
    ensures SessionSound(nested, categories + {c}, ts)
  {
    SoundAdds(nested, categories, ts, c);
    if Apart(nested, categories) && Apart(nested, categories + {c}) {
      SoundApart(nested, categories, ts);
      CollidesIff(nested, c);
      NewCategory(nested, categories, ts, c);
      RunOf(nested, Nodes(nested, categories), ts, CategoryAdded(c));
      NodesGrow(nested, categories, c);
    }
  }

  lemma TorrentMoves(nested: bool, categories: set<string>, ts: Torrents, id: int, category: string)
    requires SessionSound(nested, categories, ts) && id in ts && (category == "" || category in categories)
    ensures Told(nested, categories, ts, [TorrentMoved(id, category, ts[id])], categories, ts[id := category])
    ensures SessionSound(nested, categories, ts[id := category])
  {
    SoundApart(nested, categories, ts);
    RunOf(nested, Nodes(nested, categories), ts, TorrentMoved(id, category, ts[id]));
  }

  lemma TorrentLoads(nested: bool, categories: set<string>, ts: Torrents, id: int, category: string)
    requires SessionSound(nested, categories, ts) && id !in ts && (category == "" || category in categories)
    ensures Told(nested, categories, ts, [TorrentAdded(id, category)], categories, ts[id := category])
    ensures SessionSound(nested, categories, ts[id := category])
  {
    SoundApart(nested, categories, ts);
    RunOf(nested, Nodes(nested, categories), ts, TorrentAdded(id, category));
  }

  /** A loaded torrent finds its category's node, as the model asserts, exactly when its category is
      still there. */
  lemma LoadLegalIff(nested: bool, categories: set<string>, ts: Torrents, id: int, category: string)
    requires SessionValid(nested, categories, ts) && id !in ts
    requires category == "" || (IsValidCategoryName(category) && !Collides(nested, category))
    ensures Legal(nested, Nodes(nested, categories), ts, TorrentAdded(id, category)) <==>
            category == "" || category in categories
  {
    if category != "" {
      CollidesIff(nested, category);
      NodeTakenIff(nested, categories, ts, category);
      assert !Collides(nested, category) ==> category != UID_UNCATEGORIZED;
    }
  }

  lemma TorrentLeaves(nested: bool, categories: set<string>, ts: Torrents, id: int)
    requires SessionSound(nested, categories, ts) && id in ts
    ensures Told(nested, categories, ts, [TorrentRemoved(id, ts[id])], categories, ts - {id})
    ensures SessionSound(nested, categories, ts - {id})
  {
    RunOf(nested, Nodes(nested, categories), ts, TorrentRemoved(id, ts[id]));
  }

  // ----- a category goes, with its subcategories ------------------------------------------

  /** removeCategory() drops this category: `name` itself or, in nested mode, one below it. */
  predicate Dropped(nested: bool, c: string, name: string) {
    c == name || (nested && IsSubcategory(c, name))
  }

  function Rest(nested: bool, categories: set<string>, name: string): set<string> {
    set c | c in categories && !Dropped(nested, c, name)
  }

  /** Some of the dropped categories' signals are out: their nodes may be gone, all others are there. */
  ghost predicate Dropping(nested: bool, categories: set<string>, ts: Torrents, name: string,
                           events: seq<Event>, ts': Torrents) {
    && LegalRun(nested, Nodes(nested, categories), ts, events) && TorrentsAfter(ts, events) == ts'
    && var left := KeysAfter(nested, Nodes(nested, categories), events);
       && left <= Nodes(nested, categories)
       && forall q :: q in Nodes(nested, categories) && !Above(CategoryPath(nested, name), q) ==> q in left
  }

  lemma DropOne(nested: bool, categories: set<string>, ts: Torrents, name: string, events: seq<Event>,
                ts': Torrents, c: string)
    requires SessionValid(nested, categories, ts') && Dropping(nested, categories, ts, name, events, ts')
    requires name in categories && c in categories && Dropped(nested, c, name)
    requires Under(ts', nested, CategoryPath(nested, name)) == {}
    ensures Dropping(nested, categories, ts, name, events + [CategoryRemoved(c)], ts')
    ensures KeysAfter(nested, Nodes(nested, categories), events + [CategoryRemoved(c)]) ==
            set q | q in KeysAfter(nested, Nodes(nested, categories), events) && !Above(CategoryPath(nested, c), q)
  {
    var paths, p := Nodes(nested, categories), CategoryPath(nested, name);
    var left := KeysAfter(nested, paths, events);
    BelowIsSubcategory(nested, c, name);
    NothingUnderDescendant(ts', nested, p, CategoryPath(nested, c));
    RunConcat(nested, paths, ts, events, [CategoryRemoved(c)]);
    RunOf(nested, left, ts', CategoryRemoved(c));
    forall q | q in paths && !Above(p, q)
      ensures !Above(CategoryPath(nested, c), q)
    {
      if Above(CategoryPath(nested, c), q) {
        AboveTransitive(p, CategoryPath(nested, c), q);
      }
    }
  }

  /** With the signal of `name` itself, exactly the nodes of the other categories are left. */
  lemma DropLast(nested: bool, categories: set<string>, ts: Torrents, name: string, events: seq<Event>, ts': Torrents)
    requires SessionValid(nested, categories, ts') && Dropping(nested, categories, ts, name, events, ts')
    requires name in categories && Under(ts', nested, CategoryPath(nested, name)) == {}
    ensures Leads(nested, categories, ts, events + [CategoryRemoved(name)],
                  Rest(nested, categories, name), ts')
  {
    var rest := Rest(nested, categories, name);
    DropOne(nested, categories, ts, name, events, ts', name);
    NotUnderUncategorized(nested, name);
    var p := CategoryPath(nested, name);
    forall q | q in Nodes(nested, categories)
      ensures q in Nodes(nested, rest) <==> !Above(p, q)
    {
      NodeLeft(nested, categories, name, q);
    }
    assert Nodes(nested, rest) <= Nodes(nested, categories);
    assert KeysAfter(nested, Nodes(nested, categories), events + [CategoryRemoved(name)]) == Nodes(nested, rest);
  }

  /** The subcategories go first, then the category. */
  lemma RestInTwo(nested: bool, categories: set<string>, name: string)
    ensures Rest(nested, categories, name) ==
            (if nested then set c | c in categories && !IsSubcategory(c, name) else categories) - {name}
    ensures name in categories <==>
            name in (if nested then set c | c in categories && !IsSubcategory(c, name) else categories)
    ensures (forall c :: c in categories ==> !Dropped(nested, c, name)) ==> Rest(nested, categories, name) == categories
  {
  }

  lemma DropEnds(nested: bool, categories: set<string>, ts: Torrents, name: string, signals: seq<Event>,
                 events: seq<Event>, ts': Torrents)
    requires SessionSound(nested, categories, ts') && Told(nested, categories, ts, signals, categories, ts')
    requires nested && name in categories && Apart(nested, categories) ==>
        Dropping(nested, categories, ts, name, events, ts')
    requires !nested || name !in categories ==> events == signals
    requires name in categories && Apart(nested, categories) ==> Under(ts', nested, CategoryPath(nested, name)) == {}
    requires name !in categories ==> forall c :: c in categories ==> !Dropped(nested, c, name)
    ensures Told(nested, categories, ts, if name in categories then events + [CategoryRemoved(name)] else events,
                 Rest(nested, categories, name), ts')
  {
    if Apart(nested, categories) {
      if name in categories {
        SoundApart(nested, categories, ts');
        DropLast(nested, categories, ts, name, events, ts');
      } else {
        RestInTwo(nested, categories, name);
      }
    }
  }

  lemma NodeLeft(nested: bool, categories: set<string>, name: string, q: Path)
    requires (forall c :: c in categories ==> UsableName(nested, c)) && name in categories
    requires q in Nodes(nested, categories)
    ensures q in Nodes(nested, Rest(nested, categories, name)) <==>
            !Above(CategoryPath(nested, name), q)
  {
    NotUnderUncategorized(nested, name);
    if q !in {Root, ALL, UNCATEGORIZED} {
      var c :| c in categories && CategoryPath(nested, c) == q;
      BelowIsSubcategory(nested, c, name);
      forall d | d in categories && CategoryPath(nested, d) == q
        ensures d == c
      {
        SamePath(nested, c, d);
      }
    } else {
      assert !Above(CategoryPath(nested, name), Root);
    }
  }

  lemma SamePath(nested: bool, c: string, d: string)
    requires c != "" && d != "" && CategoryPath(nested, c) == CategoryPath(nested, d)
    ensures c == d
  {
    FullNameOfPathOf(c);
    FullNameOfPathOf(d);
  }

  /** What is left after a removal, with the torrents that lost their category, is sound again. */
  lemma RestSound(nested: bool, categories: set<string>, ts: Torrents, name: string)
    requires SessionSound(nested, categories, ts) && name in categories
    ensures SessionSound(nested, Rest(nested, categories, name), Uncategorize(nested, ts, name))
  {
    var rest := Rest(nested, categories, name);
    if nested {
      forall c, k: nat | c in rest && k < |Expand(c)|
        ensures Expand(c)[k] in rest
      {
        SubcategoryAbove(Expand(c)[k], name);
        SubcategoryAbove(c, name);
        ExpandAbove(c, k);
        if Dropped(nested, Expand(c)[k], name) {
          AboveTransitive(PathOf(name), PathOf(Expand(c)[k]), PathOf(c));
        }
      }
    }
  }

  /** Nothing belongs to a name that is no category, and no category lies below it. */
  lemma UnknownName(nested: bool, categories: set<string>, ts: Torrents, name: string)
    requires SessionSound(nested, categories, ts) && name !in categories
    ensures forall c :: c in categories ==> !Dropped(nested, c, name)
    ensures forall id :: id in ts && ts[id] != "" ==> !BelongsTo(nested, ts[id], name)
  {
    forall c | c in categories
      ensures !Dropped(nested, c, name)
    {
      if nested && IsSubcategory(c, name) {
        var k := PrefixIndex(c, name);
      }
    }
  }

  /** The torrents once those of a category have lost it. */
  function Uncategorize(nested: bool, ts: Torrents, name: string): (r: Torrents)
    ensures r.Keys == ts.Keys
  {
    map id | id in ts :: if BelongsTo(nested, ts[id], name) then "" else ts[id]
  }

  /** In a session, they are the torrents of the category itself or, in nested mode, of one below it. */
  lemma UncategorizeIs(nested: bool, categories: set<string>, ts: Torrents, name: string)
    requires SessionSound(nested, categories, ts)
    ensures Uncategorize(nested, ts, name) ==
            map id | id in ts :: if ts[id] == name || (nested && name + "/" <= ts[id]) then "" else ts[id]
  {
    forall id | id in ts && ts[id] != ""
      ensures BelongsTo(nested, ts[id], name) <==> ts[id] == name || (nested && name + "/" <= ts[id])
    {
      SubcategoryIs(ts[id], name);
      if nested && IsSubcategory(ts[id], name) {
        var k := PrefixIndex(ts[id], name);
        ValidExpanded(ts[id], k);
      }
    }
  }

  lemma RestIs(nested: bool, categories: set<string>, name: string)
    ensures Rest(nested, categories, name) == set c | c in categories && c != name && !(nested && name + "/" <= c)
  {
    forall c | c in categories
      ensures IsSubcategory(c, name) <==> name + "/" <= c
    {
      SubcategoryIs(c, name);
    }
  }

  /** The torrents while those in `rest` have not been looked at yet. */
  function Cleared(nested: bool, ts: Torrents, name: string, rest: set<int>): (r: Torrents)
    ensures r.Keys == ts.Keys
  {
    map id | id in ts :: if id !in rest && BelongsTo(nested, ts[id], name) then "" else ts[id]
  }

  lemma ClearStep(nested: bool, ts: Torrents, name: string, rest: set<int>, id: int)
    requires id in rest && id in ts
    ensures Cleared(nested, ts, name, rest)[id] == ts[id]
    ensures Cleared(nested, ts, name, rest - {id}) ==
            if BelongsTo(nested, ts[id], name) then Cleared(nested, ts, name, rest)[id := ""]
            else Cleared(nested, ts, name, rest)
  {
  }

  lemma ClearEnds(nested: bool, ts: Torrents, name: string)
    ensures Cleared(nested, ts, name, ts.Keys) == ts
    ensures Cleared(nested, ts, name, {}) == Uncategorize(nested, ts, name)
  {
  }

  lemma NothingLeftUnder(nested: bool, categories: set<string>, ts: Torrents, name: string)
    requires SessionValid(nested, categories, ts) && name in categories
    ensures Under(Uncategorize(nested, ts, name), nested, CategoryPath(nested, name)) == {}
  {
    var ts' := Uncategorize(nested, ts, name);
    NotUnderUncategorized(nested, name);
    forall id | id in ts'
      ensures !Above(CategoryPath(nested, name), CategoryPath(nested, ts'[id]))
    {
      if ts'[id] != "" {
        BelowIsSubcategory(nested, ts'[id], name);
      }
    }
    assert forall id :: id !in Under(ts', nested, CategoryPath(nested, name));
  }

  /** A missing prefix joins the session, and its signal the run. */
  lemma ParentAdds(from: set<string>, ts: Torrents, events: seq<Event>, categories: set<string>, name: string, k: nat)
    requires SessionSound(true, categories, ts) && name != "" && IsValidCategoryName(name) && k < |Expand(name)|
    requires Told(true, from, ts, events, categories, ts)
    requires Expand(name)[k] !in categories
    requires forall j: nat :: j < k ==> Expand(name)[j] in categories
    ensures Told(true, from, ts, events + [CategoryAdded(Expand(name)[k])], categories + {Expand(name)[k]}, ts)
    ensures SessionSound(true, categories + {Expand(name)[k]}, ts)
  {
    var c := Expand(name)[k];
    ExpandStep(name, k);
    ValidExpanded(name, k);
    assert forall j: nat :: j < |Expand(c)| - 1 ==> Expand(c)[j] == Expand(name)[j];
    CategoryAdds(true, categories, ts, c);
    ToldOn(true, from, ts, events, categories, ts, [CategoryAdded(c)], categories + {c}, ts);
  }

  /** The prefixes of a name that does not collide do not either. */
  lemma PrefixesApart(categories: set<string>, name: string)
    requires Apart(true, categories) && !Collides(true, name) && name != "" && IsValidCategoryName(name)
    ensures Apart(true, categories + set c | c in Expand(name))
  {
    CollidesIff(true, name);
    forall c | c in Expand(name)
      ensures !Collides(true, c)
    {
      var k :| 0 <= k < |Expand(name)| && Expand(name)[k] == c;
      UsablePrefix(name, k);
      CollidesIff(true, c);
    }
  }

  /** Only the last prefix of a name is the name. */
  lemma ParentsShorter(name: string)
    ensures Expand(name)[|Expand(name)| - 1] == name
    ensures forall k: nat :: k < |Expand(name)| - 1 ==> Expand(name)[k] != name
  {
    forall k: nat | k < |Expand(name)| - 1
      ensures Expand(name)[k] != name
    {
      ExpandStep(name, k);
    }
  }

  /** The categories with all of `prefixes` but the name itself. */
  function WithParents(categories: set<string>, prefixes: seq<string>, name: string): set<string> {
    categories + set c | c in prefixes && c != name
  }

  lemma ParentsAre(categories: set<string>, name: string)
    ensures WithParents(categories, Expand(name), name) + {name} ==
            categories + {name} + set c | c in Expand(name) && c + "/" <= name
    ensures forall c :: c + "/" <= name ==> c in Expand(name)
  {
    forall c
      ensures c in Expand(name) <==> c == name || c + "/" <= name
    {
      ExpandMembers(name, c);
    }
  }

  lemma ParentsStep(categories: set<string>, prefixes: seq<string>, k: nat, name: string)
    requires k < |prefixes|
    ensures WithParents(categories, prefixes[..k + 1], name) ==
            WithParents(categories, prefixes[..k], name) + if prefixes[k] == name then {} else {prefixes[k]}
    ensures forall j: nat :: j < k && prefixes[j] != name ==>
        prefixes[j] in WithParents(categories, prefixes[..k], name)
  {
    assert prefixes[..k + 1] == prefixes[..k] + [prefixes[k]];
    assert forall j: nat :: j < k ==> prefixes[..k][j] == prefixes[j];
  }

  lemma ParentsHeld(categories: set<string>, name: string)
    ensures forall k: nat :: k < |Expand(name)| - 1 ==> Expand(name)[k] in WithParents(categories, Expand(name), name)
  {
    ParentsShorter(name);
  }

  // ----- expandCategories -----------------------------------------------------------------

  function Prefixes(categories: set<string>): set<string> {
    set c, s | c in categories && s in Expand(c) :: s
  }

  lemma PrefixesWithOne(done: set<string>, c: string)
    ensures Prefixes(done + {c}) == Prefixes(done) + set s | s in Expand(c)
  {
  }

  lemma PrefixesContain(categories: set<string>)
    ensures categories <= Prefixes(categories)
  {
    forall c | c in categories
      ensures c in Prefixes(categories)
    {
      ParentsShorter(c);
      assert c in Expand(c);
    }
  }

  /** All prefixes of valid names: closed, valid, and colliding only if a name does. */
  lemma PrefixesSound(categories: set<string>)
    requires forall c :: c in categories ==> c != "" && IsValidCategoryName(c)
    ensures SessionSound(true, Prefixes(categories), map[])
    ensures Apart(true, categories) ==> Apart(true, Prefixes(categories))
  {
    forall s | s in Prefixes(categories)
      ensures s != "" && IsValidCategoryName(s)
      ensures Apart(true, categories) ==> !Collides(true, s)
      ensures forall k: nat :: k < |Expand(s)| ==> Expand(s)[k] in Prefixes(categories)
    {
      var c :| c in categories && s in Expand(c);
      var j :| 0 <= j < |Expand(c)| && Expand(c)[j] == s;
      ValidExpanded(c, j);
      if Apart(true, categories) {
        PrefixesApart(categories, c);
      }
      forall k: nat | k < |Expand(s)|
        ensures Expand(s)[k] in Prefixes(categories)
      {
        PrefixOfPrefix(c, j, k);
      }
    }
  }

  lemma PrefixOfPrefix(c: string, j: nat, k: nat)
    requires j < |Expand(c)| && k < |Expand(Expand(c)[j])|
    ensures Expand(Expand(c)[j])[k] in Expand(c)
  {
    ExpandStep(c, j);
    assert Expand(c)[..j + 1][k] == Expand(c)[k];
  }

  /** Its inner loop: the missing prefixes of one category. */
  method WithPrefixes(categories: set<string>, c: string) returns (expanded: set<string>)
    requires IsValidCategoryName(c)
    ensures expanded == categories + set s | s in Expand(c)
  {
    expanded := categories;
    var subcats := ExpandCategory(c);
    for k := 0 to |subcats|
      invariant expanded == categories + set s | s in subcats[..k]
    {
      assert subcats[..k + 1] == subcats[..k] + [subcats[k]];
      if subcats[k] !in expanded {
        expanded := expanded + {subcats[k]};
      }
    }
    assert subcats[..|subcats|] == subcats;
  }

  /** expandCategories, on the category names. */
  method ExpandCategories(categories: set<string>) returns (expanded: set<string>)
    requires forall c :: c in categories ==> IsValidCategoryName(c)
    ensures expanded == Prefixes(categories)
  {
    expanded := categories;
    var rest := categories;
    while |rest| > 0
      invariant rest <= categories && expanded == categories + Prefixes(categories - rest)
      decreases rest
    {
      var c := Pick(rest);
      expanded := WithPrefixes(expanded, c);
      PrefixesWithOne(categories - rest, c);
      assert categories - (rest - {c}) == categories - rest + {c};
      rest := rest - {c};
    }
    assert categories - rest == categories;
    PrefixesContain(categories);
  }

  class Session {
    const nested: bool
    var categories: set<string>
    var torrents: Torrents
    /** The torrents that were added and are not loaded yet, with their chosen categories. */
    var loading: map<int, string>

    ghost predicate Valid()
      reads this
    {
      && SessionSound(nested, categories, torrents) && loading.Keys !! torrents.Keys
      && forall id :: id in loading ==> IsValidCategoryName(loading[id])
    }

    /** A session without torrents, on the stored categories. */
    constructor (nested: bool, stored: set<string>)
      requires forall c :: c in stored ==> c != "" && IsValidCategoryName(c)
      ensures Valid() && this.nested == nested && torrents == map[] && loading == map[]
      ensures categories == if nested then Prefixes(stored) else stored
      ensures Apart(nested, stored) ==> Apart(nested, categories)
    {
      this.nested, categories, torrents, loading := nested, stored, map[], map[];
      new;
      if nested {
        categories := ExpandCategories(stored);
        PrefixesSound(stored);
      }
    }

    method AddCategory(name: string) returns (added: bool, events: seq<Event>)
      requires Valid()
      modifies `categories
      ensures Valid() && Told(nested, old(categories), torrents, events, categories, torrents)
      ensures added == (name != "" && IsValidCategoryName(name) && name !in old(categories))
      ensures added ==>
                forall c :: c in categories <==> c in old(categories) || c == name || (nested && c + "/" <= name)
      ensures !added ==> categories == old(categories) && events == []
      ensures Apart(nested, old(categories)) && !Collides(nested, name) ==> Apart(nested, categories)
    {
      events := [];
      if name == "" || !IsValidCategoryName(name) || name in categories {
        return false, [];
      }
      ParentsAre(categories, name);
      if nested {
        events := AddParents(name);
        if Apart(nested, old(categories)) && !Collides(nested, name) {
          PrefixesApart(old(categories), name);
        }
      }
      CategoryAdds(nested, categories, torrents, name);
      ToldOn(nested, old(categories), torrents, events, categories, torrents,
             [CategoryAdded(name)], categories + {name}, torrents);
      categories := categories + {name};
      events := events + [CategoryAdded(name)];
      added := true;
    }

    /** The loop of addCategory: the missing prefixes, shortest first. */
    method AddParents(name: string) returns (events: seq<Event>)
      requires Valid() && nested && name != "" && IsValidCategoryName(name) && name !in categories
      modifies `categories
      ensures Valid() && Told(nested, old(categories), torrents, events, categories, torrents)
      ensures categories == WithParents(old(categories), Expand(name), name)
      ensures forall k: nat :: k < |Expand(name)| - 1 ==> Expand(name)[k] in categories
    {
      events := [];
      var expanded := ExpandCategory(name);
      for k := 0 to |expanded|
        invariant Valid() && Told(nested, old(categories), torrents, events, categories, torrents)
        invariant categories == WithParents(old(categories), expanded[..k], name)
      {
        events := AddParent(name, expanded, k, events, old(categories));
      }
      assert expanded[..|expanded|] == expanded;
      ParentsHeld(old(categories), name);
    }

    method AddParent(name: string, expanded: seq<string>, k: nat, signals: seq<Event>, ghost from: set<string>)
      returns (events: seq<Event>)
      requires Valid() && nested && name != "" && IsValidCategoryName(name) && expanded == Expand(name)
          && k < |expanded|
      requires Told(nested, from, torrents, signals, categories, torrents)
      requires categories == WithParents(from, expanded[..k], name)
      modifies `categories
      ensures Valid() && Told(nested, from, torrents, events, categories, torrents)
      ensures categories == WithParents(from, expanded[..k + 1], name)
    {
      var parent := expanded[k];
      events := signals;
      ParentsShorter(name);
      ParentsStep(from, expanded, k, name);
      if parent != name && parent !in categories {
        ParentAdds(from, torrents, signals, categories, name, k);
        categories := categories + {parent};
        events := events + [CategoryAdded(parent)];
      }
    }

    /** TorrentImpl::setCategory. */
    method SetCategory(id: int, category: string) returns (ok: bool, events: seq<Event>)
      requires Valid() && id in torrents
      modifies `torrents
      ensures Valid() && Told(nested, categories, old(torrents), events, categories, torrents)
      ensures ok == (category == old(torrents)[id] || category == "" || category in categories)
      ensures torrents == if ok then old(torrents)[id := category] else old(torrents)
    {
      events := [];
      if torrents[id] != category {
        if category != "" && category !in categories {
          return false, [];
        }
        TorrentMoves(nested, categories, torrents, id, category);
        events := [TorrentMoved(id, category, torrents[id])];
        torrents := torrents[id := category];
      }
      ok := true;
    }

    /** removeCategory. */
    method RemoveCategory(name: string) returns (result: bool, events: seq<Event>)
      requires Valid()
      modifies `categories, `torrents
      ensures Valid() && Told(nested, old(categories), old(torrents), events, categories, torrents)
      ensures result == (name in old(categories))
      ensures categories == set c | c in old(categories) && c != name && !(nested && name + "/" <= c)
      ensures var ts := old(torrents);
              torrents == map id | id in ts :: if ts[id] == name || (nested && name + "/" <= ts[id]) then ""
                                               else ts[id]
    {
      RestIs(nested, categories, name);
      UncategorizeIs(nested, categories, torrents, name);
      events := ClearCategory(name);
      if name in categories {
        RestSound(nested, categories, old(torrents), name);
        SoundApart(nested, categories, old(torrents));
        if Apart(nested, categories) {
          NothingLeftUnder(nested, categories, old(torrents), name);
        }
      } else {
        UnknownName(nested, categories, torrents, name);
      }
      result, events := DropCategories(name, events, old(torrents));
    }

    /** Its second half: the subcategories, then the category itself. */
    method DropCategories(name: string, signals: seq<Event>, ghost ts: Torrents)
      returns (result: bool, events: seq<Event>)
      requires Valid() && Told(nested, categories, ts, signals, categories, torrents)
      requires name in categories ==>
                 && SessionSound(nested, Rest(nested, categories, name), torrents)
                 && (Apart(nested, categories) ==> Under(torrents, nested, CategoryPath(nested, name)) == {})
      requires name !in categories ==> forall c :: c in categories ==> !Dropped(nested, c, name)
      modifies `categories
      ensures Valid() && Told(nested, old(categories), ts, events, categories, torrents)
      ensures result == (name in old(categories)) && categories == Rest(nested, old(categories), name)
    {
      result, events := false, signals;
      ghost var before := categories;
      if nested {
        result, events := DropSubcategories(name, signals, ts);
      }
      RestInTwo(nested, before, name);
      DropEnds(nested, before, ts, name, signals, events, torrents);
      result := name in categories || result;
      categories := categories - {name};
      if result {
        events := events + [CategoryRemoved(name)];
      }
    }

    /** Its first loop: in some order, the torrents of the category lose it. */
    method ClearCategory(name: string) returns (events: seq<Event>)
      requires Valid()
      modifies `torrents
      ensures Valid() && Told(nested, categories, old(torrents), events, categories, torrents)
      ensures torrents == Uncategorize(nested, old(torrents), name)
    {
      events := [];
      var rest := torrents.Keys;
      ClearEnds(nested, torrents, name);
      while |rest| > 0
        invariant Valid() && Told(nested, categories, old(torrents), events, categories, torrents)
        invariant rest <= old(torrents).Keys && torrents == Cleared(nested, old(torrents), name, rest)
        decreases rest
      {
        var id := Pick(rest);
        ClearStep(nested, old(torrents), name, rest, id);
        if BelongsTo(nested, torrents[id], name) {
          ghost var ts, sofar := torrents, events;
          var ok, moved := SetCategory(id, "");
          ToldOn(nested, categories, old(torrents), sofar, categories, ts, moved, categories, torrents);
          events := events + moved;
        }
        rest := rest - {id};
      }
      assert rest == {};
    }

    /** Its second loop: in some order, the subcategories go. */
    method DropSubcategories(name: string, signals: seq<Event>, ghost ts: Torrents)
      returns (result: bool, events: seq<Event>)
      requires Valid() && nested && Told(nested, categories, ts, signals, categories, torrents)
      requires name in categories && Apart(nested, categories) ==>
          Under(torrents, nested, CategoryPath(nested, name)) == {}
      requires name !in categories ==> forall c :: c in categories ==> !Dropped(nested, c, name)
      modifies `categories
      ensures categories == set c | c in old(categories) && !IsSubcategory(c, name)
      ensures result ==> name in old(categories)
      ensures name !in old(categories) ==> events == signals
      ensures name in old(categories) && Apart(nested, old(categories)) ==>
                Dropping(nested, old(categories), ts, name, events, torrents)
    {
      result, events := false, signals;
      var rest := categories;
      SoundApart(nested, categories, torrents);
      while rest != {}
        invariant rest <= categories <= old(categories)
        invariant forall c :: c in old(categories) ==> (c in categories <==> c in rest || !IsSubcategory(c, name))
        invariant result ==> name in old(categories)
        invariant name !in old(categories) ==> events == signals
        invariant name in old(categories) && Apart(nested, old(categories)) ==>
                    Dropping(nested, old(categories), ts, name, events, torrents)
        decreases rest
      {
        var c :| c in rest;
        if IsSubcategory(c, name) {
          if Apart(nested, old(categories)) {
            DropOne(nested, old(categories), ts, name, events, torrents, c);
          }
          result := true;
          events := events + [CategoryRemoved(c)];
          categories := categories - {c};
        }
        rest := rest - {c};
      }
    }

    /** addTorrent_impl: a torrent that is not there yet gets its category, which is added when it is
        missing, and waits for libtorrent. */
    method StartLoading(id: int, category: string) returns (started: bool, events: seq<Event>)
      requires Valid()
      modifies `categories, `loading
      ensures Valid() && Told(nested, old(categories), torrents, events, categories, torrents)
      ensures started == (id !in old(loading) && id !in torrents)
      ensures !started ==> categories == old(categories) && loading == old(loading) && events == []
      ensures started ==>
                && loading == old(loading)[id := if IsValidCategoryName(category) then category else ""]
                && forall c :: c in categories <==>
                     || c in old(categories)
                     || (category != "" && IsValidCategoryName(category) && category !in old(categories)
                         && (c == category || (nested && c + "/" <= category)))
      ensures Apart(nested, old(categories)) && !Collides(nested, category) ==> Apart(nested, categories)
    {
      events := [];
      if id in loading || id in torrents {
        return false, [];
      }
      var chosen := category;
      if category != "" && category !in categories {
        var added;
        added, events := AddCategory(category);
        if !added {
          chosen := "";
        }
      }
      loading := loading[id := chosen];
      started := true;
    }

    /** The category chosen for a torrent is still there. */
    predicate StillThere(id: int)
      reads this
    {
      id in loading ==> loading[id] == "" || loading[id] in categories
    }

    /** createTorrent: the torrent is there, whatever has become of its category. */
    method FinishLoading(id: int) returns (events: seq<Event>)
      requires Valid() && id in loading
      modifies `torrents, `loading
      ensures torrents == old(torrents)[id := old(loading)[id]] && loading == old(loading) - {id}
      ensures events == [TorrentAdded(id, old(loading)[id])]
      ensures Valid() <==> old(StillThere(id))
      ensures old(StillThere(id)) ==> Told(nested, categories, old(torrents), events, categories, torrents)
    {
      var category := loading[id];
      if StillThere(id) {
        TorrentLoads(nested, categories, torrents, id, category);
      }
      loading := loading - {id};
      torrents := torrents[id := category];
      events := [TorrentAdded(id, category)];
      assert torrents[id] == category;
    }

    /** deleteTorrent. */
    method DeleteTorrent(id: int) returns (ok: bool, events: seq<Event>)
      requires Valid()
      modifies `torrents
      ensures Valid() && Told(nested, categories, old(torrents), events, categories, torrents)
      ensures ok == (id in old(torrents)) && torrents == old(torrents) - {id}
    {
      if id !in torrents {
        return false, [];
      }
      TorrentLeaves(nested, categories, torrents, id);
      events := [TorrentRemoved(id, torrents[id])];
      torrents := torrents - {id};
      ok := true;
    }

    function State(): SessionState
      reads this
    {
      SessionState(categories, torrents, loading)
    }

    method Apply(op: Operation) returns (events: seq<Event>)
      requires Valid() && (op.FinishLoading? ==> StillThere(op.id))
      modifies `categories, `torrents, `loading
      ensures Valid() && Told(nested, old(categories), old(torrents), events, categories, torrents)
      ensures State() == Performed(nested, old(State()), op)
      ensures Apart(nested, old(categories)) && !NamesCollision(nested, op) ==> Apart(nested, categories)
    {
      var ok;
      events := [];
      if op.AddCategory? && op.name != "" && IsValidCategoryName(op.name) && op.name !in categories {
        WithCategoryIs(nested, categories, op.name);
      }
      if op.StartLoading? && op.category != "" && IsValidCategoryName(op.category) && op.category !in categories {
        WithCategoryIs(nested, categories, op.category);
      }
      match op
      case AddCategory(name) => ok, events := AddCategory(name);
      case RemoveCategory(name) => ok, events := RemoveCategory(name);
      case SetCategory(id, category) => if id in torrents { ok, events := SetCategory(id, category); }
      case StartLoading(id, category) => ok, events := StartLoading(id, category);
      case FinishLoading(id) => if id in loading { events := FinishLoading(id); }
      case DeleteTorrent(id) => ok, events := DeleteTorrent(id);
    }
  }

  /** A category that is removed while a torrent with it is loading: the signal of the loaded torrent is
      one the model's assertion rules out. */
  method RemovedWhileLoading(session: Session, id: int, category: string)
    returns (ghost ts: Torrents, signals: seq<Event>)
    requires session.Valid() && Apart(session.nested, session.categories) && category in session.categories
    requires id !in session.loading && id !in session.torrents
    modifies session
    ensures session.torrents == ts[id := category] && signals == [TorrentAdded(id, category)]
    ensures !Legal(session.nested, Nodes(session.nested, session.categories), ts, signals[0])
  {
    var started, first := session.StartLoading(id, category);
    var removed, second := session.RemoveCategory(category);
    ts := session.torrents;
    SoundApart(session.nested, session.categories, ts);
    LoadLegalIff(session.nested, session.categories, ts, id, category);
    signals := session.FinishLoading(id);
  }

  // ----- session and model together -------------------------------------------------------

  datatype Operation =
    | AddCategory(name: string)
    | RemoveCategory(name: string)
    | SetCategory(id: int, category: string)
    | StartLoading(id: int, category: string)
    | FinishLoading(id: int)
    | DeleteTorrent(id: int)

  datatype SessionState = SessionState(categories: set<string>, torrents: Torrents, loading: map<int, string>)

  /** A new valid category comes with its prefixes. */
  function WithCategory(nested: bool, categories: set<string>, name: string): set<string> {
    if name == "" || !IsValidCategoryName(name) || name in categories then categories
    else categories + {name} + set c | c in Expand(name) && nested
  }

  lemma WithCategoryIs(nested: bool, categories: set<string>, name: string)
    requires name != "" && IsValidCategoryName(name) && name !in categories
    ensures forall c :: c in WithCategory(nested, categories, name) <==>
              c in categories || c == name || (nested && c + "/" <= name)
  {
    forall c
      ensures c in Expand(name) <==> c == name || c + "/" <= name
    {
      ExpandMembers(name, c);
    }
  }

  /** What an operation makes of the session's state. */
  function Performed(nested: bool, s: SessionState, op: Operation): SessionState {
    match op
    case AddCategory(name) => s.(categories := WithCategory(nested, s.categories, name))
    case RemoveCategory(name) =>
      var kept := set c | c in s.categories && c != name && !(nested && name + "/" <= c);
      var ts := map id | id in s.torrents ::
        if s.torrents[id] == name || (nested && name + "/" <= s.torrents[id]) then "" else s.torrents[id];
      s.(categories := kept, torrents := ts)
    case SetCategory(id, category) =>
      if id in s.torrents && (category == "" || category in s.categories) then
        s.(torrents := s.torrents[id := category])
      else s
    case StartLoading(id, category) =>
      if id in s.loading || id in s.torrents then s
      else
        s.(categories := WithCategory(nested, s.categories, category),
           loading := s.loading[id := if IsValidCategoryName(category) then category else ""])
    case FinishLoading(id) =>
      if id in s.loading then s.(torrents := s.torrents[id := s.loading[id]], loading := s.loading - {id}) else s
    case DeleteTorrent(id) => s.(torrents := s.torrents - {id})
  }

  function PerformedAll(nested: bool, s: SessionState, ops: seq<Operation>): SessionState {
    if ops == [] then s else Performed(nested, PerformedAll(nested, s, ops[..|ops| - 1]), ops[|ops| - 1])
  }

  lemma PerformedStep(nested: bool, s: SessionState, ops: seq<Operation>, n: nat)
    requires n < |ops|
    ensures PerformedAll(nested, s, ops[..n + 1]) == Performed(nested, PerformedAll(nested, s, ops[..n]), ops[n])
  {
    assert ops[..n + 1][..n] == ops[..n];
  }

  predicate NamesCollision(nested: bool, op: Operation) {
    match op
    case AddCategory(name) => Collides(nested, name)
    case StartLoading(_, category) => Collides(nested, category)
    case _ => false
  }

  /** The model has exactly a node per category of the session, besides the special ones. */
  ghost predicate Mirrors(session: Session, model: CategoryFilterModel)
    reads session, model`t, model`isSubcategoriesEnabled, model.rootItem`name, model.rootItem`childUids
    reads model.t.Values
  {
    && session.Valid() && Apart(session.nested, session.categories)
    && model.Shaped() && model.isSubcategoriesEnabled == session.nested
    && model.t.Keys == Nodes(session.nested, session.categories)
  }

  /** How far the shown counts are from the true ones. */
  ghost function DriftsOf(session: Session, model: CategoryFilterModel): map<Path, int>
    reads session, model`t, model.t.Values
  {
    Drifts(Counts(model.t), session.torrents, session.nested)
  }

  /** And every count is right. */
  ghost predicate InStep(session: Session, model: CategoryFilterModel)
    reads session, model`t, model`isSubcategoriesEnabled, model.rootItem`name, model.rootItem`childUids
    reads model.t.Values
  {
    Mirrors(session, model) && AllZero(DriftsOf(session, model))
  }

  /** Whatever is done to the session, the model, fed with its signals, keeps mirroring it, its drifts
      depend on the category signals only, and from a model in step none arises - all up to a torrent
      that is loaded with a category that is gone. */
  method Drive(session: Session, model: CategoryFilterModel, ops: seq<Operation>)
    returns (n: nat, signals: seq<Event>)
    requires Mirrors(session, model) && NoCollision(session.nested, ops)
    modifies session, model`t, model.t.Values
    ensures Mirrors(session, model)
    ensures n <= |ops| && (n < |ops| ==> CategoryGone(session, ops[n]))
    ensures session.State() == PerformedAll(session.nested, old(session.State()), ops[..n])
    ensures DriftsOf(session, model) == DriftsAfter(old(DriftsOf(session, model)), session.nested, signals)
    ensures old(InStep(session, model)) ==> InStep(session, model)
  {
    ghost var drifts := DriftsOf(session, model);
    n, signals := DriveAll(session, model, ops);
    if AllZero(drifts) {
      ZeroAfter(drifts, session.nested, signals);
    }
  }

  method DriveAll(session: Session, model: CategoryFilterModel, ops: seq<Operation>)
    returns (n: nat, signals: seq<Event>)
    requires Mirrors(session, model) && NoCollision(session.nested, ops)
    modifies session, model`t, model.t.Values
    ensures Mirrors(session, model)
    ensures n <= |ops| && (n < |ops| ==> CategoryGone(session, ops[n]))
    ensures session.State() == PerformedAll(session.nested, old(session.State()), ops[..n])
    ensures DriftsOf(session, model) == DriftsAfter(old(DriftsOf(session, model)), session.nested, signals)
  {
    n, signals := 0, [];
    ghost var drifts, before := DriftsOf(session, model), session.State();
    while n < |ops| && !CategoryGone(session, ops[n])
      invariant n <= |ops| && Mirrors(session, model)
      invariant session.State() == PerformedAll(session.nested, before, ops[..n])
      invariant DriftsOf(session, model) == DriftsAfter(drifts, session.nested, signals)
      invariant forall p :: p in model.t ==> model.t[p] in old(model.t.Values) || fresh(model.t[p])
    {
      var more := DriveOne(session, model, ops[n]);
      DriftsAfterConcat(drifts, session.nested, signals, more);
      PerformedStep(session.nested, before, ops, n);
      signals := signals + more;
      n := n + 1;
    }
  }

  ghost predicate NoCollision(nested: bool, ops: seq<Operation>) {
    forall i :: 0 <= i < |ops| ==> !NamesCollision(nested, ops[i])
  }

  /** The operation is the end of a loading whose category is gone. */
  predicate CategoryGone(session: Session, op: Operation)
    reads session
  {
    op.FinishLoading? && !session.StillThere(op.id)
  }

  method DriveOne(session: Session, model: CategoryFilterModel, op: Operation) returns (signals: seq<Event>)
    requires Mirrors(session, model) && !NamesCollision(session.nested, op)
    requires !CategoryGone(session, op)
    modifies session, model`t, model.t.Values
    ensures Mirrors(session, model)
    ensures session.State() == Performed(session.nested, old(session.State()), op)
    ensures DriftsOf(session, model) == DriftsAfter(old(DriftsOf(session, model)), session.nested, signals)
    ensures forall p :: p in model.t ==> model.t[p] in old(model.t.Values) || fresh(model.t[p])
  {
    ghost var from, before := session.categories, session.torrents;
    SoundApart(session.nested, from, before);
    ValidFiled(session.nested, from, before);
    signals := session.Apply(op);
    assert Counts(model.t) == old(Counts(model.t)) && model.Shaped();
    Feed(session, model, from, before, signals);
  }

  /** The model gets the signals that led the session here. */
  method Feed(session: Session, model: CategoryFilterModel, ghost from: set<string>, ghost before: Torrents,
              signals: seq<Event>)
    requires session.Valid() && Apart(session.nested, session.categories)
    requires Leads(session.nested, from, before, signals, session.categories, session.torrents)
    requires model.Shaped() && model.isSubcategoriesEnabled == session.nested
    requires model.t.Keys == Nodes(session.nested, from) && Filed(model.t.Keys, session.nested, before)
    modifies model`t, model.t.Values
    ensures Mirrors(session, model)
    ensures DriftsOf(session, model) ==
            DriftsAfter(Drifts(old(Counts(model.t)), before, session.nested), session.nested, signals)
    ensures forall p :: p in model.t ==> model.t[p] in old(model.t.Values) || fresh(model.t[p])
  {
    ghost var ts := model.Replay(before, signals);
  }

  /** The categories' nodes are the ones populate() wants. */
  lemma WantedNodes(model: CategoryFilterModel, categories: seq<string>, nested: bool, p: Path)
    requires forall c :: c in categories ==> UsableName(nested, c)
    requires nested ==> Closed(set c | c in categories)
    ensures model.Wanted(categories, nested, p) <==> exists c :: c in categories && CategoryPath(nested, c) == p
  {
    if model.Wanted(categories, nested, p) {
      var c :| c in categories && Above(p, CategoryPath(nested, c));
      if nested {
        var k := PrefixOfAncestor(c, p);
        var d := Expand(c)[k];
        assert d in (set x | x in categories);
        assert d in categories && CategoryPath(nested, d) == p;
      } else {
        assert UsableName(nested, c) && CategoryPath(nested, c) == At(Root, c);
        assert Above(p, At(Root, c)) && !Above(p, Root);
      }
    }
    forall c | c in categories && CategoryPath(nested, c) == p
      ensures model.Wanted(categories, nested, p)
    {
      assert Above(p, p);
    }
  }

  /** Just populated from the session, the model is in step with it if and only if no torrent's category
      lies more than two levels deep. */
  lemma FreshModelInStep(session: Session, model: CategoryFilterModel, categories: seq<string>)
    requires session.Valid() && Apart(session.nested, session.categories)
    requires forall c :: c in categories <==> c in session.categories
    requires model.Populated(categories, session.torrents, session.nested)
    ensures InStep(session, model) <==>
            forall id :: id in session.torrents ==> Depth(CategoryPath(session.nested, session.torrents[id])) <= 2
  {
    assert (set c | c in categories) == session.categories;
    SoundApart(session.nested, session.categories, session.torrents);
    forall p
      ensures p in model.t <==> p in Nodes(session.nested, session.categories)
    {
      WantedNodes(model, categories, session.nested, p);
    }
    FreshModelExact(model, categories, session.torrents, session.nested);
  }

  lemma FreshModelExact(model: CategoryFilterModel, categories: seq<string>, ts: Torrents, nested: bool)
    requires model.Populated(categories, ts, nested)
    ensures AllZero(Drifts(Counts(model.t), ts, nested)) <==>
            forall id :: id in ts ==> Depth(CategoryPath(nested, ts[id])) <= 2
  {
    var drifts := Drifts(Counts(model.t), ts, nested);
    if forall id :: id in ts ==> Depth(CategoryPath(nested, ts[id])) <= 2 {
      forall p | p in drifts
        ensures drifts[p] == 0
      {
        PopulateCountExact(ts, nested, p);
        assert Depth(p) >= 1;
      }
    } else {
      var id :| id in ts && Depth(CategoryPath(nested, ts[id])) > 2;
      var q := CategoryPath(nested, ts[id]);
      assert Known(model.t.Keys, nested, ts[id]);
      var p := TopOf(q);
      AncestorsPresent(model.t, p, q);
      PopulateCountExact(ts, nested, p);
      NothingUnderAll(nested, ts[id]);
      assert p in drifts && drifts[p] != 0;
    }
  }

  /** The ancestor directly below the root. */
  function TopOf(p: Path): (top: Path)
    requires p.At?
    ensures Above(top, p) && Depth(top) == 1
  {
    if p.up.Root? then p else TopOf(p.up)
  }
}
