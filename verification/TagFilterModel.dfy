/** The tag counters of src/gui/tagfiltermodel.cpp. The session is the environment: its torrents are
    the ghost map `ts` from ids to tag sets, as they were before the event. A torrent can carry tags
    that the session does not list, even the special ones: those it is added or restored with are not
    checked. */
module TagFilter {
  import opened Collections
  import opened Strings

  type Torrents = map<int, set<string>>

  const ALL_TAG := " "
  const UNTAGGED_TAG := "  "

  datatype TagModelItem = TagModelItem(tag: string, torrentsCount: int)

  /** Session::isValidTag. */
  predicate IsValidTag(tag: string) {
    Trimmed(tag) != "" && ',' !in tag
  }

  /** A valid tag has a character that is no space, and no comma. */
  lemma ValidTagIff(tag: string)
    ensures IsValidTag(tag) <==> (exists c :: c in tag && !IsSpace(c)) && ',' !in tag
  {
    var front, back := TrimmedIs(tag);
    var t := Trimmed(tag);
    if t != "" {
      assert t[0] in tag;
    }
  }

  ghost function Tagged(ts: Torrents, tag: string): set<int> {
    set id | id in ts && tag in ts[id]
  }

  ghost function Untagged(ts: Torrents): set<int> {
    set id | id in ts && ts[id] == {}
  }

  /** What row `i` should show, counted afresh. */
  ghost function Recount(items: seq<TagModelItem>, ts: Torrents, i: nat): nat
    requires i < |items|
  {
    if i == 0 then |ts| else if i == 1 then |Untagged(ts)| else |Tagged(ts, items[i].tag)|
  }

  predicate TagsDistinct(items: seq<TagModelItem>) {
    forall i, j :: 0 <= i < j < |items| ==> items[i].tag != items[j].tag
  }

  predicate HasRow(items: seq<TagModelItem>, tag: string) {
    exists i :: 2 <= i < |items| && items[i].tag == tag
  }

  /** The two special rows first, every tag once. */
  ghost predicate Shaped(items: seq<TagModelItem>) {
    |items| >= 2 && items[0].tag == ALL_TAG && items[1].tag == UNTAGGED_TAG && TagsDistinct(items)
  }

  ghost predicate Exact(items: seq<TagModelItem>, ts: Torrents) {
    forall i :: 0 <= i < |items| ==> items[i].torrentsCount == Recount(items, ts, i)
  }

  ghost predicate Consistent(items: seq<TagModelItem>, ts: Torrents) {
    Shaped(items) && Exact(items, ts)
  }

  /** How far row `i` is from what it should show. */
  ghost function Drift(items: seq<TagModelItem>, ts: Torrents, i: nat): int
    requires i < |items|
  {
    items[i].torrentsCount - Recount(items, ts, i)
  }

  predicate Special(tag: string) {
    tag == " " || tag == "  "
  }

  /** None of the tags is taken for a special row. */
  predicate Clean(tags: set<string>) {
    " " !in tags && "  " !in tags
  }

  lemma SpecialTagsInvalid()
    ensures !IsValidTag(" ") && !IsValidTag("  ") && !IsValidTag(ALL_TAG) && !IsValidTag(UNTAGGED_TAG)
  {
    var one, two := ALL_TAG, UNTAGGED_TAG;
    assert two[..1] == one && one[..0] == "";
    assert TrimEnd(one) == TrimEnd(one[..0]) == "";
    assert TrimEnd(two) == TrimEnd(two[..1]) == "";
  }

  // ----- how the fresh counts move ----------------------------------------------------------

  lemma TaggedChanged(ts: Torrents, id: int, tags: set<string>, tag: string)
    ensures |Tagged(ts[id := tags], tag)| ==
            |Tagged(ts, tag)| - (if id in ts && tag in ts[id] then 1 else 0) + (if tag in tags then 1 else 0)
  {
    OneMoves(Tagged(ts, tag), Tagged(ts[id := tags], tag), id);
  }

  lemma UntaggedChanged(ts: Torrents, id: int, tags: set<string>)
    ensures |Untagged(ts[id := tags])| ==
            |Untagged(ts)| - (if id in ts && ts[id] == {} then 1 else 0) + (if tags == {} then 1 else 0)
  {
    OneMoves(Untagged(ts), Untagged(ts[id := tags]), id);
  }

  lemma SizeChanged(ts: Torrents, id: int, tags: set<string>)
    ensures |ts[id := tags]| == |ts| + if id in ts then 0 else 1
  {
    if id in ts {
      assert ts[id := tags].Keys == ts.Keys;
    } else {
      assert ts[id := tags].Keys == ts.Keys + {id};
    }
  }

  /** The rows to move, by `d` each. */
  function Moved(items: seq<TagModelItem>, rows: set<int>, d: int): (r: seq<TagModelItem>)
    ensures |r| == |items|
    ensures forall i :: 0 <= i < |items| ==>
              r[i] == items[i].(torrentsCount := items[i].torrentsCount + if i in rows then d else 0)
  {
    seq(|items|, i requires 0 <= i < |items| =>
      items[i].(torrentsCount := items[i].torrentsCount + if i in rows then d else 0))
  }

  lemma MovedMore(items: seq<TagModelItem>, rows: set<int>, more: set<int>, d: int)
    requires rows !! more
    ensures Moved(Moved(items, rows, d), more, d) == Moved(items, rows + more, d)
  {
  }

  lemma MovedShaped(items: seq<TagModelItem>, rows: set<int>, d: int)
    ensures Shaped(Moved(items, rows, d)) <==> Shaped(items)
    ensures forall tag :: HasRow(Moved(items, rows, d), tag) <==> HasRow(items, tag)
  {
    var moved := Moved(items, rows, d);
    assert forall i :: 0 <= i < |items| ==> moved[i].tag == items[i].tag;
    forall tag | HasRow(items, tag)
      ensures HasRow(moved, tag)
    {
      var i :| 2 <= i < |items| && items[i].tag == tag;
      assert moved[i].tag == tag;
    }
  }

  /** populate()'s layout: the special rows, then the tags in the session's order. */
  predicate Listed(items: seq<TagModelItem>, tags: seq<string>) {
    |items| == |tags| + 2 && items[0].tag == ALL_TAG && items[1].tag == UNTAGGED_TAG &&
    forall i :: 0 <= i < |tags| ==> items[i + 2].tag == tags[i]
  }

  lemma ListedStart(items: seq<TagModelItem>, ts: Torrents)
    requires items == [TagModelItem(ALL_TAG, |ts|), TagModelItem(UNTAGGED_TAG, |Untagged(ts)|)]
    ensures Listed(items, []) && Exact(items, ts)
  {
  }

  /** A new last row with a fresh count. */
  lemma ListedMore(items: seq<TagModelItem>, tags: seq<string>, n: nat, ts: Torrents)
    requires n < |tags| && Listed(items, tags[..n]) && Exact(items, ts)
    ensures Listed(items + [TagModelItem(tags[n], |Tagged(ts, tags[n])|)], tags[..n + 1])
    ensures Exact(items + [TagModelItem(tags[n], |Tagged(ts, tags[n])|)], ts)
  {
    var items' := items + [TagModelItem(tags[n], |Tagged(ts, tags[n])|)];
    forall i | 0 <= i < |items'|
      ensures items'[i].torrentsCount == Recount(items', ts, i)
    {
      if i < |items| {
        assert items'[i] == items[i];
      }
    }
  }

  lemma ListedShaped(items: seq<TagModelItem>, tags: seq<string>)
    requires Listed(items, tags)
    requires forall i :: 0 <= i < |tags| ==> IsValidTag(tags[i])
    requires forall i, j :: 0 <= i < j < |tags| ==> tags[i] != tags[j]
    ensures Shaped(items) && forall tag :: tag in tags ==> HasRow(items, tag)
  {
    SpecialTagsInvalid();
    RestDistinct(items, tags, ALL_TAG, UNTAGGED_TAG);
  }

  lemma RestDistinct(items: seq<TagModelItem>, tags: seq<string>, all: string, untagged: string)
    requires |items| == |tags| + 2 && items[0].tag == all && items[1].tag == untagged && all != untagged
    requires forall i :: 0 <= i < |tags| ==> items[i + 2].tag == tags[i]
    requires all !in tags && untagged !in tags
    requires forall i, j :: 0 <= i < j < |tags| ==> tags[i] != tags[j]
    ensures TagsDistinct(items) && forall tag :: tag in tags ==> HasRow(items, tag)
  {
    forall i | 2 <= i < |items|
      ensures items[i].tag == tags[i - 2]
    {
      assert items[i - 2 + 2].tag == tags[i - 2];
    }
    forall tag | tag in tags
      ensures HasRow(items, tag)
    {
      var i :| 0 <= i < |tags| && tags[i] == tag;
      assert items[i + 2].tag == tag;
    }
  }

  lemma OnlyTag(tags: set<string>, tag: string)
    requires tag !in tags
    ensures |tags + {tag}| == 1 <==> tags == {}
  {
    assert |tags + {tag}| == |tags| + 1;
  }

  lemma MovedNowhere(items: seq<TagModelItem>, d: int)
    ensures Moved(items, {}, d) == items
  {
  }

  lemma MovedTwiceShaped(items: seq<TagModelItem>, rows: set<int>, d: int, more: set<int>, e: int)
    requires Shaped(items)
    ensures Shaped(Moved(Moved(items, rows, d), more, e))
    ensures RowTags(Moved(Moved(items, rows, d), more, e)) == RowTags(items)
  {
    MovedShaped(items, rows, d);
    MovedShaped(Moved(items, rows, d), more, e);
  }

  lemma InFound(items: seq<TagModelItem>, tags: set<string>, rows: seq<int>)
    requires AsSet(rows) == Found(items, tags)
    ensures forall i :: i in rows <==> i in Found(items, tags)
  {
    assert forall i :: i in rows <==> i in AsSet(rows);
  }

  /** What findRow answers does not depend on the counts. */
  lemma RowFound(items: seq<TagModelItem>, rows: set<int>, d: int, tag: string, row: int)
    requires Shaped(items) && -1 <= row < |items|
    requires row >= 0 ==> Moved(items, rows, d)[row].tag == tag
    requires row < 0 ==> forall i :: 0 <= i < |items| ==> Moved(items, rows, d)[i].tag != tag
    ensures Found(items, {tag}) == if row < 0 then {} else {row}
    ensures row < 0 ==> !HasRow(items, tag)
  {
    assert forall i :: 0 <= i < |items| ==> Moved(items, rows, d)[i].tag == items[i].tag;
  }

  // ----- what the slots do to the rows --------------------------------------------------------

  /** The rows whose tag is in the set: for unlisted tags none, for the special ones the special rows. */
  ghost function Found(items: seq<TagModelItem>, tags: set<string>): set<int> {
    set i | 0 <= i < |items| && items[i].tag in tags
  }

  lemma FoundMoved(items: seq<TagModelItem>, rows: set<int>, d: int, tags: set<string>)
    ensures Found(Moved(items, rows, d), tags) == Found(items, tags)
  {
  }

  lemma FoundSpecial(items: seq<TagModelItem>, tags: set<string>)
    requires Shaped(items)
    ensures 0 in Found(items, tags) <==> ALL_TAG in tags
    ensures 1 in Found(items, tags) <==> UNTAGGED_TAG in tags
  {
  }

  /** torrentAdded: "All", "Untagged" when no row was found, and the found rows. */
  ghost function AfterAdding(items: seq<TagModelItem>, tags: set<string>): (r: seq<TagModelItem>)
    ensures |r| == |items|
  {
    Moved(Moved(items, if Found(items, tags) == {} then {0, 1} else {0}, 1), Found(items, tags), 1)
  }

  /** torrentAboutToBeRemoved: "All", "Untagged" for a torrent without tags, and the found rows. */
  ghost function AfterRemoving(items: seq<TagModelItem>, tags: set<string>): (r: seq<TagModelItem>)
    ensures |r| == |items|
  {
    Moved(Moved(items, if tags == {} then {0, 1} else {0}, -1), Found(items, tags), -1)
  }

  /** torrentTagRemoved: "Untagged" when it was the last tag, and the tag's row if there is one. */
  ghost function AfterLosing(items: seq<TagModelItem>, rest: set<string>, tag: string): (r: seq<TagModelItem>)
    ensures |r| == |items|
  {
    Moved(Moved(items, if rest == {} then {1} else {}, 1), Found(items, {tag}), -1)
  }

  /** torrentTagAdded, for a tag with a row: "Untagged" when it is the first tag, and that row. */
  ghost function AfterGaining(items: seq<TagModelItem>, before: set<string>, tag: string): (r: seq<TagModelItem>)
    ensures |r| == |items|
  {
    Moved(Moved(items, if before == {} then {1} else {}, -1), Found(items, {tag}), 1)
  }

  /** The first row with the tag, or -1. */
  ghost function RowOf(items: seq<TagModelItem>, tag: string): (row: int)
    ensures -1 <= row < |items|
    ensures row >= 0 ==> items[row].tag == tag
    ensures row < 0 ==> forall i :: 0 <= i < |items| ==> items[i].tag != tag
  {
    if items == [] then -1
    else if items[0].tag == tag then 0
    else
      var row := RowOf(items[1..], tag);
      assert row < 0 ==> forall i :: 0 < i < |items| ==> items[i] == items[1..][i - 1];
      if row < 0 then -1 else row + 1
  }

  ghost function WithoutRow(items: seq<TagModelItem>, tag: string): seq<TagModelItem> {
    var row := RowOf(items, tag);
    if row < 0 then items else items[..row] + items[row + 1..]
  }

  // ----- the law of the drifts ----------------------------------------------------------------

  lemma RecountMoved(items: seq<TagModelItem>, items': seq<TagModelItem>, ts: Torrents, id: int, tags: set<string>,
                     i: nat)
    requires i < |items| == |items'| && items'[i].tag == items[i].tag
    ensures Recount(items', ts[id := tags], i) - Recount(items, ts, i) ==
            if i == 0 then (if id in ts then 0 else 1)
            else if i == 1 then (if tags == {} then 1 else 0) - (if id in ts && ts[id] == {} then 1 else 0)
            else (if items[i].tag in tags then 1 else 0) - (if id in ts && items[i].tag in ts[id] then 1 else 0)
  {
    SizeChanged(ts, id, tags);
    UntaggedChanged(ts, id, tags);
    TaggedChanged(ts, id, tags, items[i].tag);
  }

  /** A torrent's removal is undone by giving it back. */
  lemma Restored(ts: Torrents, id: int)
    requires id in ts
    ensures (ts - {id})[id := ts[id]] == ts
  {
  }

  /** An added torrent moves no tag row's drift. "All" goes off for a tag that is taken for it, "Untagged"
      for a tag that is taken for it and for tags without any row. */
  lemma AddedDrift(items: seq<TagModelItem>, ts: Torrents, id: int, tags: set<string>, i: nat)
    requires Shaped(items) && id !in ts && i < |items|
    ensures Drift(AfterAdding(items, tags), ts[id := tags], i) - Drift(items, ts, i) ==
            if i == 0 then (if ALL_TAG in tags then 1 else 0)
            else if i == 1 then
              (if UNTAGGED_TAG in tags then 1 else 0) + (if tags != {} && Found(items, tags) == {} then 1 else 0)
            else 0
  {
    RecountMoved(items, AfterAdding(items, tags), ts, id, tags, i);
    FoundSpecial(items, tags);
    assert tags == {} ==> Found(items, tags) == {};
  }

  /** A removed torrent moves no drift but those of the special rows its tags are taken for. */
  lemma RemovedDrift(items: seq<TagModelItem>, ts: Torrents, id: int, i: nat)
    requires Shaped(items) && id in ts && i < |items|
    ensures Drift(AfterRemoving(items, ts[id]), ts - {id}, i) - Drift(items, ts, i) ==
            if i == 0 then -(if ALL_TAG in ts[id] then 1 else 0)
            else if i == 1 then -(if UNTAGGED_TAG in ts[id] then 1 else 0)
            else 0
  {
    Restored(ts, id);
    RecountMoved(AfterRemoving(items, ts[id]), items, ts - {id}, id, ts[id], i);
    FoundSpecial(items, ts[id]);
  }

  /** A lost tag moves no drift but that of the special row it is taken for. */
  lemma LostDrift(items: seq<TagModelItem>, ts: Torrents, id: int, tag: string, i: nat)
    requires Shaped(items) && id in ts && tag in ts[id] && i < |items|
    ensures Drift(AfterLosing(items, ts[id] - {tag}, tag), ts[id := ts[id] - {tag}], i) - Drift(items, ts, i) ==
            if i == 0 then -(if tag == ALL_TAG then 1 else 0)
            else if i == 1 then -(if tag == UNTAGGED_TAG then 1 else 0)
            else 0
  {
    RecountMoved(items, AfterLosing(items, ts[id] - {tag}, tag), ts, id, ts[id] - {tag}, i);
    FoundSpecial(items, {tag});
  }

  /** A gained tag with a row moves no drift. */
  lemma GainedDrift(items: seq<TagModelItem>, ts: Torrents, id: int, tag: string, i: nat)
    requires Shaped(items) && id in ts && tag !in ts[id] && HasRow(items, tag) && i < |items|
    ensures Drift(AfterGaining(items, ts[id], tag), ts[id := ts[id] + {tag}], i) == Drift(items, ts, i)
  {
    RecountMoved(items, AfterGaining(items, ts[id], tag), ts, id, ts[id] + {tag}, i);
    ListedNotSpecial(items, tag);
    FoundSpecial(items, {tag});
  }

  lemma ListedNotSpecial(items: seq<TagModelItem>, tag: string)
    requires Shaped(items) && HasRow(items, tag)
    ensures !Special(tag) && RowOf(items, tag) >= 2
  {
    var i :| 2 <= i < |items| && items[i].tag == tag;
  }

  lemma ListedRows(items: seq<TagModelItem>, tag: string)
    requires Shaped(items) && IsValidTag(tag) && !HasRow(items, tag)
    ensures Shaped(items + [TagModelItem(tag, 0)])
    ensures RowTags(items + [TagModelItem(tag, 0)]) == RowTags(items) + {tag}
  {
    ValidNotSpecial(tag);
    RowsAndOne(items, tag);
    OtherTags(items, tag);
    OneMoreDistinct(items, TagModelItem(tag, 0));
    FrontKept(items, TagModelItem(tag, 0));
  }

  lemma ValidNotSpecial(tag: string)
    requires IsValidTag(tag)
    ensures !Special(tag)
  {
    SpecialTagsInvalid();
  }

  lemma OtherTags(items: seq<TagModelItem>, tag: string)
    requires |items| >= 2 && items[0].tag != tag && items[1].tag != tag && !HasRow(items, tag)
    ensures forall i :: 0 <= i < |items| ==> items[i].tag != tag
  {
  }

  lemma FrontKept(items: seq<TagModelItem>, item: TagModelItem)
    requires |items| >= 2
    ensures (items + [item])[0] == items[0] && (items + [item])[1] == items[1]
  {
  }

  lemma OneMoreDistinct(items: seq<TagModelItem>, item: TagModelItem)
    requires TagsDistinct(items) && forall i :: 0 <= i < |items| ==> items[i].tag != item.tag
    ensures TagsDistinct(items + [item])
  {
  }

  /** A new row starts as far below the truth as torrents carry its tag already. */
  lemma ListedDrift(items: seq<TagModelItem>, ts: Torrents, tag: string, i: nat)
    requires i <= |items| && |items| >= 2
    ensures Drift(items + [TagModelItem(tag, 0)], ts, i) ==
            if i < |items| then Drift(items, ts, i) else -|Tagged(ts, tag)|
  {
    assert i < |items| ==> (items + [TagModelItem(tag, 0)])[i] == items[i];
  }

  lemma RowsAndOne(items: seq<TagModelItem>, tag: string)
    requires |items| >= 2
    ensures RowTags(items + [TagModelItem(tag, 0)]) == RowTags(items) + {tag}
  {
    var items' := items + [TagModelItem(tag, 0)];
    forall other
      ensures HasRow(items', other) <==> HasRow(items, other) || other == tag
    {
      assert items'[|items|].tag == tag;
      if i :| 2 <= i < |items| && items[i].tag == other {
        assert items'[i].tag == other;
      }
    }
  }

  /** Removing a row leaves the others as they are. */
  lemma UnlistedRows(items: seq<TagModelItem>, tag: string)
    requires Shaped(items) && HasRow(items, tag)
    ensures RowOf(items, tag) >= 2 && |WithoutRow(items, tag)| == |items| - 1
    ensures Shaped(WithoutRow(items, tag)) && RowTags(WithoutRow(items, tag)) == RowTags(items) - {tag}
  {
    ListedNotSpecial(items, tag);
    CutRows(items, tag, RowOf(items, tag), WithoutRow(items, tag));
  }

  lemma CutRows(items: seq<TagModelItem>, tag: string, row: nat, cut: seq<TagModelItem>)
    requires Shaped(items) && 2 <= row < |items| && items[row].tag == tag
    requires cut == items[..row] + items[row + 1..]
    ensures Shaped(cut) && RowTags(cut) == RowTags(items) - {tag}
  {
    RowsLeft(items, tag, row);
    CutDistinct(items, row);
    assert cut[0] == items[0] && cut[1] == items[1];
    TagsLeft(items, cut, tag);
  }

  lemma CutDistinct(items: seq<TagModelItem>, row: nat)
    requires TagsDistinct(items) && row < |items|
    ensures TagsDistinct(items[..row] + items[row + 1..])
  {
    var cut := items[..row] + items[row + 1..];
    forall i, j | 0 <= i < j < |cut|
      ensures cut[i].tag != cut[j].tag
    {
      CutAt(items, row, i);
      CutAt(items, row, j);
    }
  }

  lemma TagsLeft(items: seq<TagModelItem>, items': seq<TagModelItem>, tag: string)
    requires forall other :: HasRow(items', other) <==> HasRow(items, other) && other != tag
    ensures RowTags(items') == RowTags(items) - {tag}
  {
  }

  lemma CutAt(items: seq<TagModelItem>, row: nat, i: nat)
    requires row < |items| && i < |items| - 1
    ensures (items[..row] + items[row + 1..])[i] == items[if i < row then i else i + 1]
  {
  }

  lemma UnlistedDrift(items: seq<TagModelItem>, ts: Torrents, tag: string, i: nat)
    requires Shaped(items) && HasRow(items, tag) && i < |items| - 1
    ensures RowOf(items, tag) >= 2 && i < |WithoutRow(items, tag)|
    ensures Drift(WithoutRow(items, tag), ts, i) ==
            Drift(items, ts, if i < RowOf(items, tag) then i else i + 1)
  {
    UnlistedRows(items, tag);
    CutAt(items, RowOf(items, tag), i);
  }

  lemma RowsLeft(items: seq<TagModelItem>, tag: string, row: int)
    requires Shaped(items) && 2 <= row < |items| && items[row].tag == tag
    ensures forall other :: HasRow(items[..row] + items[row + 1..], other) <==> HasRow(items, other) && other != tag
  {
    var items' := items[..row] + items[row + 1..];
    assert forall i :: 0 <= i < |items'| ==> items'[i] == items[if i < row then i else i + 1];
    forall other
      ensures HasRow(items', other) <==> HasRow(items, other) && other != tag
    {
      if i :| 2 <= i < |items| && items[i].tag == other && other != tag {
        assert items'[if i < row then i else i - 1].tag == other;
      }
    }
  }

  // ----- events -----------------------------------------------------------------------------

  datatype Event =
    | TagAdded(tag: string)
    | TagRemoved(tag: string)
    | TorrentTagAdded(id: int, tag: string)
    | TorrentTagRemoved(id: int, tag: string)
    | TorrentAdded(id: int, tags: set<string>)
    | TorrentRemoved(id: int)

  /** The tags in the model. */
  ghost function RowTags(items: seq<TagModelItem>): (tags: set<string>)
    ensures forall tag :: tag in tags <==> HasRow(items, tag)
  {
    set i | 2 <= i < |items| :: items[i].tag
  }

  /** What the session guarantees about an event: `model` are its tags, `ts` its torrents. Only a tag
      that a present torrent gains is listed before. */
  ghost predicate Legal(model: set<string>, ts: Torrents, e: Event) {
    match e
    case TagAdded(tag) => IsValidTag(tag) && tag !in model
    case TagRemoved(tag) => tag in model
    case TorrentTagAdded(id, tag) => id in ts && tag !in ts[id] && tag in model
    case TorrentTagRemoved(id, tag) => id in ts && tag in ts[id]
    case TorrentAdded(id, tags) => id !in ts
    case TorrentRemoved(id) => id in ts
  }

  ghost function ModelNext(model: set<string>, e: Event): set<string> {
    match e
    case TagAdded(tag) => model + {tag}
    case TagRemoved(tag) => model - {tag}
    case _ => model
  }

  function TorrentsNext(ts: Torrents, e: Event): Torrents {
    match e
    case TorrentTagAdded(id, tag) => if id in ts then ts[id := ts[id] + {tag}] else ts
    case TorrentTagRemoved(id, tag) => if id in ts then ts[id := ts[id] - {tag}] else ts
    case TorrentAdded(id, tags) => ts[id := tags]
    case TorrentRemoved(id) => ts - {id}
    case _ => ts
  }

  /** The rows after an event, whatever they show. */
  ghost function RowsNext(items: seq<TagModelItem>, ts: Torrents, e: Event): seq<TagModelItem>
    requires Legal(RowTags(items), ts, e)
  {
    match e
    case TagAdded(tag) => items + [TagModelItem(tag, 0)]
    case TagRemoved(tag) => WithoutRow(items, tag)
    case TorrentTagAdded(id, tag) => AfterGaining(items, ts[id], tag)
    case TorrentTagRemoved(id, tag) => AfterLosing(items, ts[id] - {tag}, tag)
    case TorrentAdded(id, tags) => AfterAdding(items, tags)
    case TorrentRemoved(id) => AfterRemoving(items, ts[id])
  }

  /** A torrent comes with tags, none of which is special or listed. */
  predicate AllUnlisted(model: set<string>, e: Event) {
    e.TorrentAdded? && e.tags != {} && Clean(e.tags) && e.tags * model == {}
  }

  /** For clean tags, a row is found exactly when some tag is listed. */
  lemma FoundNoneIff(items: seq<TagModelItem>, tags: set<string>)
    requires Shaped(items)
    ensures Found(items, tags) == {} <==> Clean(tags) && tags * RowTags(items) == {}
  {
    FoundSpecial(items, tags);
    forall i | i in Found(items, tags) && i >= 2
      ensures items[i].tag in tags * RowTags(items)
    {
      assert HasRow(items, items[i].tag);
    }
    forall tag | tag in tags * RowTags(items)
      ensures Found(items, tags) != {}
    {
      var i :| 2 <= i < |items| && items[i].tag == tag;
      assert i in Found(items, tags);
    }
    assert Clean(tags) && tags * RowTags(items) == {} ==> forall i :: i !in Found(items, tags);
  }

  lemma RowsNextShaped(items: seq<TagModelItem>, ts: Torrents, e: Event)
    requires Shaped(items) && Legal(RowTags(items), ts, e)
    ensures Shaped(RowsNext(items, ts, e)) && RowTags(RowsNext(items, ts, e)) == ModelNext(RowTags(items), e)
  {
    match e
    case TagAdded(tag) => ListedRows(items, tag);
    case TagRemoved(tag) => UnlistedRows(items, tag);
    case TorrentTagAdded(id, tag) =>
      MovedTwiceShaped(items, if ts[id] == {} then {1} else {}, -1, Found(items, {tag}), 1);
    case TorrentTagRemoved(id, tag) =>
      MovedTwiceShaped(items, if ts[id] - {tag} == {} then {1} else {}, 1, Found(items, {tag}), -1);
    case TorrentAdded(id, tags) =>
      MovedTwiceShaped(items, if Found(items, tags) == {} then {0, 1} else {0}, 1, Found(items, tags), 1);
    case TorrentRemoved(id) =>
      MovedTwiceShaped(items, if ts[id] == {} then {0, 1} else {0}, -1, Found(items, ts[id]), -1);
  }

  /** The special rows drift with the torrents whose tags are taken for them, and "Untagged" by one more
      with every torrent whose tags are all unlisted. */
  lemma SpecialDriftNext(items: seq<TagModelItem>, ts: Torrents, e: Event)
    requires Shaped(items) && Legal(RowTags(items), ts, e) && Shaped(RowsNext(items, ts, e))
    ensures var items', ts' := RowsNext(items, ts, e), TorrentsNext(ts, e);
            && Drift(items', ts', 0) - Drift(items, ts, 0) == |Tagged(ts', ALL_TAG)| - |Tagged(ts, ALL_TAG)|
            && Drift(items', ts', 1) - Drift(items, ts, 1) ==
               |Tagged(ts', UNTAGGED_TAG)| - |Tagged(ts, UNTAGGED_TAG)|
               + if AllUnlisted(RowTags(items), e) then 1 else 0
  {
    match e
    case TagAdded(tag) =>
      ListedDrift(items, ts, tag, 0);
      ListedDrift(items, ts, tag, 1);
    case TagRemoved(tag) =>
      UnlistedDrift(items, ts, tag, 0);
      UnlistedDrift(items, ts, tag, 1);
    case TorrentTagAdded(id, tag) =>
      GainedDrift(items, ts, id, tag, 0);
      GainedDrift(items, ts, id, tag, 1);
      ListedNotSpecial(items, tag);
      SpecialChanged(ts, id, ts[id] + {tag});
    case TorrentTagRemoved(id, tag) =>
      LostDrift(items, ts, id, tag, 0);
      LostDrift(items, ts, id, tag, 1);
      SpecialChanged(ts, id, ts[id] - {tag});
    case TorrentAdded(id, tags) =>
      AddedDrift(items, ts, id, tags, 0);
      AddedDrift(items, ts, id, tags, 1);
      FoundNoneIff(items, tags);
      SpecialChanged(ts, id, tags);
    case TorrentRemoved(id) =>
      RemovedDrift(items, ts, id, 0);
      RemovedDrift(items, ts, id, 1);
      Restored(ts, id);
      SpecialChanged(ts - {id}, id, ts[id]);
  }

  lemma SpecialChanged(ts: Torrents, id: int, tags: set<string>)
    ensures |Tagged(ts[id := tags], ALL_TAG)| - |Tagged(ts, ALL_TAG)| ==
            (if ALL_TAG in tags then 1 else 0) - (if id in ts && ALL_TAG in ts[id] then 1 else 0)
    ensures |Tagged(ts[id := tags], UNTAGGED_TAG)| - |Tagged(ts, UNTAGGED_TAG)| ==
            (if UNTAGGED_TAG in tags then 1 else 0) - (if id in ts && UNTAGGED_TAG in ts[id] then 1 else 0)
  {
    TaggedChanged(ts, id, tags, ALL_TAG);
    TaggedChanged(ts, id, tags, UNTAGGED_TAG);
  }

  /** The drift of a listed tag's row. */
  ghost function TagDrift(items: seq<TagModelItem>, ts: Torrents, tag: string): int
    requires RowOf(items, tag) >= 0
  {
    Drift(items, ts, RowOf(items, tag))
  }

  /** In rows of distinct tags, a row with the tag is the row of the tag. */
  lemma RowIs(items: seq<TagModelItem>, tag: string, i: nat)
    requires Shaped(items) && i < |items| && items[i].tag == tag
    ensures RowOf(items, tag) == i
  {
  }

  lemma SameTagsAfter(items: seq<TagModelItem>, ts: Torrents, e: Event, i: nat)
    requires Legal(RowTags(items), ts, e) && !e.TagRemoved? && i < |items|
    ensures i < |RowsNext(items, ts, e)| && RowsNext(items, ts, e)[i].tag == items[i].tag
  {
  }

  /** A row keeps its drift through every event but its own. */
  lemma RowDriftNext(items: seq<TagModelItem>, ts: Torrents, e: Event, i: nat)
    requires Shaped(items) && Legal(RowTags(items), ts, e) && !e.TagRemoved? && 2 <= i < |items|
    ensures i < |RowsNext(items, ts, e)|
    ensures Drift(RowsNext(items, ts, e), TorrentsNext(ts, e), i) == Drift(items, ts, i)
  {
    match e
    case TagAdded(listed) => ListedDrift(items, ts, listed, i);
    case TorrentTagAdded(id, other) => GainedDrift(items, ts, id, other, i);
    case TorrentTagRemoved(id, other) => LostDrift(items, ts, id, other, i);
    case TorrentAdded(id, tags) => AddedDrift(items, ts, id, tags, i);
    case TorrentRemoved(id) => RemovedDrift(items, ts, id, i);
  }

  /** A tag's row drifts when it is new, and never again. */
  lemma TagDriftNext(items: seq<TagModelItem>, ts: Torrents, e: Event, tag: string)
    requires Shaped(items) && Legal(RowTags(items), ts, e) && Shaped(RowsNext(items, ts, e))
    requires HasRow(RowsNext(items, ts, e), tag) && RowTags(RowsNext(items, ts, e)) == ModelNext(RowTags(items), e)
    ensures RowOf(RowsNext(items, ts, e), tag) >= 2 && (e != TagAdded(tag) ==> RowOf(items, tag) >= 2)
    ensures TagDrift(RowsNext(items, ts, e), TorrentsNext(ts, e), tag) ==
            if e == TagAdded(tag) then -|Tagged(ts, tag)| else TagDrift(items, ts, tag)
  {
    var items' := RowsNext(items, ts, e);
    ListedNotSpecial(items', tag);
    if e == TagAdded(tag) {
      ListedDrift(items, ts, tag, |items|);
      RowIs(items', tag, |items|);
    } else {
      assert tag in ModelNext(RowTags(items), e) && HasRow(items, tag);
      ListedNotSpecial(items, tag);
      OldTagDriftNext(items, ts, e, tag, RowOf(items', tag));
    }
  }

  lemma OldTagDriftNext(items: seq<TagModelItem>, ts: Torrents, e: Event, tag: string, row': nat)
    requires Shaped(items) && Legal(RowTags(items), ts, e) && Shaped(RowsNext(items, ts, e))
    requires HasRow(items, tag) && RowOf(items, tag) >= 2
    requires row' < |RowsNext(items, ts, e)| && RowsNext(items, ts, e)[row'].tag == tag
    ensures Drift(RowsNext(items, ts, e), TorrentsNext(ts, e), row') == TagDrift(items, ts, tag)
  {
    if e.TagRemoved? {
      UnlistedRows(items, e.tag);
      UnlistedDrift(items, ts, e.tag, row');
      CutAt(items, RowOf(items, e.tag), row');
      RowIs(items, tag, if row' < RowOf(items, e.tag) then row' else row' + 1);
    } else {
      var row := RowOf(items, tag);
      SameTagsAfter(items, ts, e, row);
      RowIs(RowsNext(items, ts, e), tag, row);
      RowIs(RowsNext(items, ts, e), tag, row');
      RowDriftNext(items, ts, e, row);
    }
  }

  /** Rows are exact exactly when nothing drifted. */
  lemma ExactIff(items: seq<TagModelItem>, ts: Torrents)
    requires Shaped(items)
    ensures Exact(items, ts) <==>
            && Drift(items, ts, 0) == 0 && Drift(items, ts, 1) == 0
            && forall tag :: tag in RowTags(items) ==> RowOf(items, tag) >= 0 && TagDrift(items, ts, tag) == 0
  {
    forall i | 2 <= i < |items|
      ensures items[i].tag in RowTags(items) && RowOf(items, items[i].tag) == i
    {
      assert HasRow(items, items[i].tag);
    }
    forall tag | tag in RowTags(items)
      ensures RowOf(items, tag) >= 2
    {
      ListedNotSpecial(items, tag);
    }
    if Drift(items, ts, 0) == 0 && Drift(items, ts, 1) == 0
       && forall tag :: tag in RowTags(items) ==> RowOf(items, tag) >= 0 && TagDrift(items, ts, tag) == 0 {
      forall i | 0 <= i < |items|
        ensures Drift(items, ts, i) == 0
      {
        assert i >= 2 ==> TagDrift(items, ts, items[i].tag) == Drift(items, ts, i);
      }
    }
    assert Exact(items, ts) ==> forall i :: 0 <= i < |items| ==> Drift(items, ts, i) == 0;
  }

  /** The event leaves exact rows exact. */
  ghost predicate Safe(model: set<string>, ts: Torrents, e: Event) {
    match e
    case TagAdded(tag) => Tagged(ts, tag) == {}
    case TorrentTagRemoved(id, tag) => !Special(tag)
    case TorrentAdded(id, tags) => tags == {} || (Clean(tags) && tags * model != {})
    case TorrentRemoved(id) => id in ts && Clean(ts[id])
    case _ => true
  }

  /** Exact rows stay exact if and only if the event is safe. */
  lemma StaysExactIff(items: seq<TagModelItem>, ts: Torrents, e: Event)
    requires Consistent(items, ts) && Legal(RowTags(items), ts, e)
    ensures Exact(RowsNext(items, ts, e), TorrentsNext(ts, e)) <==> Safe(RowTags(items), ts, e)
  {
    var items', ts' := RowsNext(items, ts, e), TorrentsNext(ts, e);
    RowsNextShaped(items, ts, e);
    SpecialDriftNext(items, ts, e);
    ExactIff(items, ts);
    ExactIff(items', ts');
    forall tag | tag in RowTags(items')
      ensures RowOf(items', tag) >= 2
      ensures TagDrift(items', ts', tag) == if e == TagAdded(tag) then -|Tagged(ts, tag)| else 0
    {
      TagDriftNext(items, ts, e, tag);
    }
    SafeIffNoShift(RowTags(items), ts, e);
    if e.TagAdded? {
      assert e.tag in RowTags(items');
      assert |Tagged(ts, e.tag)| == 0 <==> Tagged(ts, e.tag) == {};
    }
  }

  lemma SafeIffNoShift(model: set<string>, ts: Torrents, e: Event)
    requires Legal(model, ts, e) && Clean(model)
    ensures var ts' := TorrentsNext(ts, e);
            Safe(model, ts, e) <==>
            && |Tagged(ts', ALL_TAG)| == |Tagged(ts, ALL_TAG)|
            && |Tagged(ts', UNTAGGED_TAG)| - |Tagged(ts, UNTAGGED_TAG)| + (if AllUnlisted(model, e) then 1 else 0) == 0
            && (e.TagAdded? ==> Tagged(ts, e.tag) == {})
  {
    match e
    case TagAdded(tag) =>
    case TagRemoved(tag) =>
    case TorrentTagAdded(id, tag) => SpecialChanged(ts, id, ts[id] + {tag});
    case TorrentTagRemoved(id, tag) => SpecialChanged(ts, id, ts[id] - {tag});
    case TorrentAdded(id, tags) => SpecialChanged(ts, id, tags);
    case TorrentRemoved(id) =>
      Restored(ts, id);
      SpecialChanged(ts - {id}, id, ts[id]);
  }

  // ----- the assertion in decreaseTorrentsCount ----------------------------------------------

  /** The assertion m_torrentsCount > 0 holds at every decrease of the event. */
  ghost predicate Asserted(items: seq<TagModelItem>, ts: Torrents, e: Event)
    requires |items| >= 2
  {
    match e
    case TorrentTagAdded(id, tag) => id in ts && (ts[id] == {} ==> items[1].torrentsCount > 0)
    case TorrentTagRemoved(id, tag) => id in ts && LossAsserted(items, ts[id] - {tag}, tag)
    case TorrentRemoved(id) => id in ts && RemovalAsserted(items, ts[id])
    case _ => true
  }

  ghost predicate RemovalAsserted(items: seq<TagModelItem>, tags: set<string>)
    requires |items| >= 2
  {
    && items[0].torrentsCount > 0 && (tags == {} ==> items[1].torrentsCount > 0)
    && forall i :: i in Found(items, tags) ==>
                     Moved(items, if tags == {} then {0, 1} else {0}, -1)[i].torrentsCount > 0
  }

  ghost predicate LossAsserted(items: seq<TagModelItem>, rest: set<string>, tag: string)
    requires |items| >= 2
  {
    forall i :: i in Found(items, {tag}) ==> Moved(items, if rest == {} then {1} else {}, 1)[i].torrentsCount > 0
  }

  /** The same by what the rows show: `all`, `untagged`, and, tag by tag, `shown`. */
  ghost predicate AssertedBy(all: int, untagged: int, shown: map<string, int>, ts: Torrents, e: Event) {
    match e
    case TorrentTagAdded(id, tag) => id in ts && (ts[id] == {} ==> untagged > 0)
    case TorrentTagRemoved(id, tag) =>
      && id in ts
      && (tag == ALL_TAG ==> all > 0)
      && (tag == UNTAGGED_TAG ==> untagged + (if ts[id] - {tag} == {} then 1 else 0) > 0)
      && (tag in shown ==> shown[tag] > 0)
    case TorrentRemoved(id) =>
      && id in ts
      && all > (if ALL_TAG in ts[id] then 1 else 0)
      && (ts[id] == {} || UNTAGGED_TAG in ts[id] ==> untagged > 0)
      && forall tag :: tag in ts[id] && tag in shown ==> shown[tag] > 0
    case _ => true
  }

  /** What the tag rows show. */
  ghost function ShownTags(items: seq<TagModelItem>): (m: map<string, int>)
    requires Shaped(items)
    ensures m.Keys == RowTags(items)
    ensures forall i :: 2 <= i < |items| ==> items[i].tag in m && m[items[i].tag] == items[i].torrentsCount
  {
    ShownRows(items);
    map tag | tag in RowTags(items) :: items[RowOf(items, tag)].torrentsCount
  }

  lemma ShownRows(items: seq<TagModelItem>)
    requires Shaped(items)
    ensures forall tag :: tag in RowTags(items) ==> RowOf(items, tag) >= 2
    ensures forall i :: 2 <= i < |items| ==> items[i].tag in RowTags(items) && RowOf(items, items[i].tag) == i
  {
    forall i | 2 <= i < |items|
      ensures items[i].tag in RowTags(items) && RowOf(items, items[i].tag) == i
    {
      assert HasRow(items, items[i].tag);
    }
    forall tag | tag in RowTags(items)
      ensures RowOf(items, tag) >= 2
    {
      ListedNotSpecial(items, tag);
    }
  }

  lemma AssertedIff(items: seq<TagModelItem>, ts: Torrents, e: Event)
    requires Shaped(items)
    ensures Asserted(items, ts, e) <==>
            AssertedBy(items[0].torrentsCount, items[1].torrentsCount, ShownTags(items), ts, e)
  {
    match e
    case TorrentTagRemoved(id, tag) => if id in ts { LossAssertedIff(items, ts[id] - {tag}, tag); }
    case TorrentRemoved(id) => if id in ts { RemovalAssertedIff(items, ts[id]); }
    case _ =>
  }

  lemma LossAssertedIff(items: seq<TagModelItem>, rest: set<string>, tag: string)
    requires Shaped(items)
    ensures LossAsserted(items, rest, tag) <==>
            && (tag == ALL_TAG ==> items[0].torrentsCount > 0)
            && (tag == UNTAGGED_TAG ==> items[1].torrentsCount + (if rest == {} then 1 else 0) > 0)
            && (tag in ShownTags(items) ==> ShownTags(items)[tag] > 0)
  {
    var moved := Moved(items, if rest == {} then {1} else {}, 1);
    FoundSpecial(items, {tag});
    ShownRows(items);
    forall i | i in Found(items, {tag}) && i >= 2
      ensures i == RowOf(items, tag) && moved[i].torrentsCount == ShownTags(items)[tag]
    {
    }
    if tag in ShownTags(items) {
      assert RowOf(items, tag) in Found(items, {tag});
    }
  }

  /** When a torrent is removed, the assertion holds exactly when every row it is taken from shows enough. */
  lemma RemovalAssertedIff(items: seq<TagModelItem>, tags: set<string>)
    requires Shaped(items)
    ensures RemovalAsserted(items, tags) <==>
            && items[0].torrentsCount > (if ALL_TAG in tags then 1 else 0)
            && (tags == {} || UNTAGGED_TAG in tags ==> items[1].torrentsCount > 0)
            && forall tag :: tag in tags && tag in ShownTags(items) ==> ShownTags(items)[tag] > 0
  {
    var moved := Moved(items, if tags == {} then {0, 1} else {0}, -1);
    FoundSpecial(items, tags);
    ShownRows(items);
    forall i | i in Found(items, tags) && i >= 2
      ensures items[i].tag in tags && items[i].tag in ShownTags(items)
      ensures moved[i].torrentsCount == ShownTags(items)[items[i].tag]
    {
    }
    forall tag | tag in tags && tag in ShownTags(items)
      ensures RowOf(items, tag) in Found(items, tags) && moved[RowOf(items, tag)].torrentsCount == ShownTags(items)[tag]
    {
    }
  }

  // ----- whole runs ---------------------------------------------------------------------------

  ghost function ModelAfter(model: set<string>, events: seq<Event>): set<string> {
    if events == [] then model else ModelNext(ModelAfter(model, Init(events)), Last(events))
  }

  function TorrentsAfter(ts: Torrents, events: seq<Event>): Torrents {
    if events == [] then ts else TorrentsNext(TorrentsAfter(ts, Init(events)), Last(events))
  }

  function Init(events: seq<Event>): seq<Event>
    requires events != []
  {
    events[..|events| - 1]
  }

  function Last(events: seq<Event>): Event
    requires events != []
  {
    events[|events| - 1]
  }

  ghost predicate LegalRun(model: set<string>, ts: Torrents, events: seq<Event>) {
    events != [] ==>
      && LegalRun(model, ts, Init(events))
      && Legal(ModelAfter(model, Init(events)), TorrentsAfter(ts, Init(events)), Last(events))
  }

  /** The rows after a legal run, whatever they show. */
  ghost function RowsAfter(items: seq<TagModelItem>, ts: Torrents, events: seq<Event>): (r: seq<TagModelItem>)
    requires Shaped(items) && LegalRun(RowTags(items), ts, events)
    ensures Shaped(r) && RowTags(r) == ModelAfter(RowTags(items), events)
  {
    if events == [] then items
    else
      var before := RowsAfter(items, ts, Init(events));
      RowsNextShaped(before, TorrentsAfter(ts, Init(events)), Last(events));
      RowsNext(before, TorrentsAfter(ts, Init(events)), Last(events))
  }

  /** How many torrents came with tags that were all unlisted then. */
  ghost function UnlistedArrivals(model: set<string>, events: seq<Event>): nat {
    if events == [] then 0
    else
      UnlistedArrivals(model, Init(events))
      + if AllUnlisted(ModelAfter(model, Init(events)), Last(events)) then 1 else 0
  }

  /** The torrents that had the tag when it was last listed during the run. */
  ghost function TaggedAtListing(ts: Torrents, events: seq<Event>, tag: string): Option<set<int>> {
    if events == [] then None
    else if Last(events) == TagAdded(tag) then Some(Tagged(TorrentsAfter(ts, Init(events)), tag))
    else TaggedAtListing(ts, Init(events), tag)
  }

  /** The closed form of the special rows' drifts over any legal run. */
  lemma {:induction false} SpecialDrifts(items: seq<TagModelItem>, ts: Torrents, events: seq<Event>)
    requires Shaped(items) && LegalRun(RowTags(items), ts, events)
    ensures var items', ts' := RowsAfter(items, ts, events), TorrentsAfter(ts, events);
            && Drift(items', ts', 0) == Drift(items, ts, 0) + |Tagged(ts', ALL_TAG)| - |Tagged(ts, ALL_TAG)|
            && Drift(items', ts', 1) == Drift(items, ts, 1) + |Tagged(ts', UNTAGGED_TAG)| - |Tagged(ts, UNTAGGED_TAG)|
                                        + UnlistedArrivals(RowTags(items), events)
    decreases |events|
  {
    if events != [] {
      SpecialDrifts(items, ts, Init(events));
      var before, ts1 := RowsAfter(items, ts, Init(events)), TorrentsAfter(ts, Init(events));
      RowsNextShaped(before, ts1, Last(events));
      SpecialDriftNext(before, ts1, Last(events));
    }
  }

  /** And of a tag's row: what it was, or minus the torrents that had the tag when it was last listed. */
  lemma {:induction false} TagDrifts(items: seq<TagModelItem>, ts: Torrents, events: seq<Event>, tag: string)
    requires Shaped(items) && LegalRun(RowTags(items), ts, events) && HasRow(RowsAfter(items, ts, events), tag)
    ensures RowOf(RowsAfter(items, ts, events), tag) >= 2
    ensures TaggedAtListing(ts, events, tag).None? ==> HasRow(items, tag) && RowOf(items, tag) >= 2
    ensures TagDrift(RowsAfter(items, ts, events), TorrentsAfter(ts, events), tag) ==
            match TaggedAtListing(ts, events, tag)
            case Some(tagged) => -|tagged|
            case None => TagDrift(items, ts, tag)
    decreases |events|
  {
    if events == [] {
      ListedNotSpecial(items, tag);
    } else {
      var before, ts1, e := RowsAfter(items, ts, Init(events)), TorrentsAfter(ts, Init(events)), Last(events);
      RowsNextShaped(before, ts1, e);
      TagDriftNext(before, ts1, e, tag);
      if e != TagAdded(tag) {
        assert tag in ModelNext(RowTags(before), e) && tag in RowTags(before);
        TagDrifts(items, ts, Init(events), tag);
      }
    }
  }

  ghost predicate SafeRun(model: set<string>, ts: Torrents, events: seq<Event>) {
    events != [] ==>
      && SafeRun(model, ts, Init(events))
      && Safe(ModelAfter(model, Init(events)), TorrentsAfter(ts, Init(events)), Last(events))
  }

  /** Exact after every event of the run. */
  ghost predicate ExactThroughout(items: seq<TagModelItem>, ts: Torrents, events: seq<Event>)
    requires Shaped(items) && LegalRun(RowTags(items), ts, events)
  {
    && Exact(RowsAfter(items, ts, events), TorrentsAfter(ts, events))
    && (events != [] ==> ExactThroughout(items, ts, Init(events)))
  }

  /** Over any legal run exact rows are exact after every event if and only if every event is safe. */
  lemma {:induction false} ExactThroughoutIff(items: seq<TagModelItem>, ts: Torrents, events: seq<Event>)
    requires Consistent(items, ts) && LegalRun(RowTags(items), ts, events)
    ensures ExactThroughout(items, ts, events) <==> SafeRun(RowTags(items), ts, events)
    decreases |events|
  {
    if events != [] {
      ExactThroughoutIff(items, ts, Init(events));
      if ExactThroughout(items, ts, Init(events)) {
        ThroughoutAtEnd(items, ts, Init(events));
        StaysExactIff(RowsAfter(items, ts, Init(events)), TorrentsAfter(ts, Init(events)), Last(events));
      }
    }
  }

  lemma ThroughoutAtEnd(items: seq<TagModelItem>, ts: Torrents, events: seq<Event>)
    requires Shaped(items) && LegalRun(RowTags(items), ts, events) && ExactThroughout(items, ts, events)
    ensures Consistent(RowsAfter(items, ts, events), TorrentsAfter(ts, events))
  {
  }

  /** The assertion holds throughout the run. */
  ghost predicate NeverFires(items: seq<TagModelItem>, ts: Torrents, events: seq<Event>)
    requires Shaped(items) && LegalRun(RowTags(items), ts, events)
  {
    events != [] ==>
      && NeverFires(items, ts, Init(events))
      && Asserted(RowsAfter(items, ts, Init(events)), TorrentsAfter(ts, Init(events)), Last(events))
  }

  lemma {:induction false} PrefixFine(items: seq<TagModelItem>, ts: Torrents, events: seq<Event>, n: nat)
    requires Shaped(items) && LegalRun(RowTags(items), ts, events) && NeverFires(items, ts, events) && n <= |events|
    ensures LegalRun(RowTags(items), ts, events[..n]) && NeverFires(items, ts, events[..n])
    decreases |events|
  {
    if n == |events| {
      assert events[..n] == events;
    } else {
      assert Init(events)[..n] == events[..n];
      PrefixFine(items, ts, Init(events), n);
    }
  }

  /** One more event of a run that is fine as a whole. */
  lemma NextFine(items: seq<TagModelItem>, ts: Torrents, events: seq<Event>, n: nat)
    requires Shaped(items) && LegalRun(RowTags(items), ts, events) && NeverFires(items, ts, events) && n < |events|
    requires LegalRun(RowTags(items), ts, events[..n])
    ensures LegalRun(RowTags(items), ts, events[..n + 1])
    ensures var before, ts1 := RowsAfter(items, ts, events[..n]), TorrentsAfter(ts, events[..n]);
            && Legal(RowTags(before), ts1, events[n]) && Asserted(before, ts1, events[n])
            && RowsAfter(items, ts, events[..n + 1]) == RowsNext(before, ts1, events[n])
            && TorrentsAfter(ts, events[..n + 1]) == TorrentsNext(ts1, events[n])
  {
    PrefixFine(items, ts, events, n + 1);
    assert Init(events[..n + 1]) == events[..n] && Last(events[..n + 1]) == events[n];
  }

  /** What "All", "Untagged" and the tag rows show after a run from exact rows, told from the torrents and
      the events alone. */
  ghost function AllAfter(ts: Torrents, events: seq<Event>): int {
    var ts' := TorrentsAfter(ts, events);
    |ts'| + |Tagged(ts', ALL_TAG)| - |Tagged(ts, ALL_TAG)|
  }

  ghost function UntaggedAfter(model: set<string>, ts: Torrents, events: seq<Event>): int {
    var ts' := TorrentsAfter(ts, events);
    |Untagged(ts')| + |Tagged(ts', UNTAGGED_TAG)| - |Tagged(ts, UNTAGGED_TAG)| + UnlistedArrivals(model, events)
  }

  ghost function TagsAfter(model: set<string>, ts: Torrents, events: seq<Event>): (m: map<string, int>)
    ensures m.Keys == ModelAfter(model, events)
  {
    map tag | tag in ModelAfter(model, events) ::
      |Tagged(TorrentsAfter(ts, events), tag)|
      - match TaggedAtListing(ts, events, tag) case Some(tagged) => |tagged| case None => 0
  }

  lemma ShownAfter(items: seq<TagModelItem>, ts: Torrents, events: seq<Event>)
    requires Consistent(items, ts) && LegalRun(RowTags(items), ts, events)
    ensures var items' := RowsAfter(items, ts, events);
            && items'[0].torrentsCount == AllAfter(ts, events)
            && items'[1].torrentsCount == UntaggedAfter(RowTags(items), ts, events)
            && ShownTags(items') == TagsAfter(RowTags(items), ts, events)
  {
    SpecialDrifts(items, ts, events);
    ExactIff(items, ts);
    forall tag | tag in RowTags(RowsAfter(items, ts, events))
      ensures ShownTags(RowsAfter(items, ts, events))[tag] == TagsAfter(RowTags(items), ts, events)[tag]
    {
      TagShownAfter(items, ts, events, tag);
    }
  }

  lemma TagShownAfter(items: seq<TagModelItem>, ts: Torrents, events: seq<Event>, tag: string)
    requires Consistent(items, ts) && LegalRun(RowTags(items), ts, events)
    requires tag in RowTags(RowsAfter(items, ts, events))
    ensures ShownTags(RowsAfter(items, ts, events))[tag] == TagsAfter(RowTags(items), ts, events)[tag]
  {
    TagDrifts(items, ts, events, tag);
    TagShownIs(RowsAfter(items, ts, events), TorrentsAfter(ts, events), tag);
    if TaggedAtListing(ts, events, tag).None? {
      ExactTagDrift(items, ts, tag);
    }
  }

  lemma TagShownIs(items: seq<TagModelItem>, ts: Torrents, tag: string)
    requires Shaped(items) && HasRow(items, tag) && RowOf(items, tag) >= 2
    ensures ShownTags(items)[tag] == |Tagged(ts, tag)| + TagDrift(items, ts, tag)
  {
    ShownRows(items);
  }

  lemma ExactTagDrift(items: seq<TagModelItem>, ts: Torrents, tag: string)
    requires Consistent(items, ts) && RowOf(items, tag) >= 0
    ensures TagDrift(items, ts, tag) == 0
  {
  }

  /** Every event finds enough shown, told from the torrents and the events before it. */
  ghost predicate EnoughShown(model: set<string>, ts: Torrents, events: seq<Event>) {
    events != [] ==>
      && EnoughShown(model, ts, Init(events))
      && AssertedBy(AllAfter(ts, Init(events)), UntaggedAfter(model, ts, Init(events)),
                    TagsAfter(model, ts, Init(events)), TorrentsAfter(ts, Init(events)), Last(events))
  }

  /** Over any legal run from exact rows the assertion never fires if and only if, at every event, each
      row that it decreases shows enough: for a listed tag, that more torrents carry it than did when it
      was last listed. */
  lemma {:induction false} NeverFiresIff(items: seq<TagModelItem>, ts: Torrents, events: seq<Event>)
    requires Consistent(items, ts) && LegalRun(RowTags(items), ts, events)
    ensures NeverFires(items, ts, events) <==> EnoughShown(RowTags(items), ts, events)
    decreases |events|
  {
    if events != [] {
      NeverFiresIff(items, ts, Init(events));
      ShownAfter(items, ts, Init(events));
      AssertedIff(RowsAfter(items, ts, Init(events)), TorrentsAfter(ts, Init(events)), Last(events));
    }
  }

  /** On exact rows a safe event never makes the assertion fire. */
  lemma SafeIsAsserted(items: seq<TagModelItem>, ts: Torrents, e: Event)
    requires Consistent(items, ts) && Legal(RowTags(items), ts, e) && Safe(RowTags(items), ts, e)
    ensures Asserted(items, ts, e)
  {
    if e.TorrentTagAdded? || e.TorrentTagRemoved? || e.TorrentRemoved? {
      CountedPositive(items, ts, e.id);
      AssertedIff(items, ts, e);
      ShownRows(items);
    }
  }

  /** Every row a present torrent is counted in is positive, if the rows are exact. */
  lemma CountedPositive(items: seq<TagModelItem>, ts: Torrents, id: int)
    requires Consistent(items, ts) && id in ts
    ensures items[0].torrentsCount > 0 && (ts[id] == {} ==> items[1].torrentsCount > 0)
    ensures forall tag :: tag in ts[id] && tag in ShownTags(items) ==> ShownTags(items)[tag] > 0
  {
    assert id in ts.Keys;
    assert ts[id] == {} ==> id in Untagged(ts);
    assert Recount(items, ts, 0) > 0 && (ts[id] == {} ==> Recount(items, ts, 1) > 0);
    ShownRows(items);
    forall tag | tag in ts[id] && tag in RowTags(items)
      ensures Recount(items, ts, RowOf(items, tag)) > 0
    {
      assert id in Tagged(ts, tag);
    }
  }

  /** So over a safe run it never fires. */
  lemma {:induction false} SafeRunNeverFires(items: seq<TagModelItem>, ts: Torrents, events: seq<Event>)
    requires Consistent(items, ts) && LegalRun(RowTags(items), ts, events) && SafeRun(RowTags(items), ts, events)
    ensures NeverFires(items, ts, events)
    decreases |events|
  {
    if events != [] {
      SafeRunNeverFires(items, ts, Init(events));
      ExactThroughoutIff(items, ts, Init(events));
      ThroughoutAtEnd(items, ts, Init(events));
      SafeIsAsserted(RowsAfter(items, ts, Init(events)), TorrentsAfter(ts, Init(events)), Last(events));
    }
  }

  // ----- witnesses ------------------------------------------------------------------------------

  /** A torrent comes with a valid tag that is not listed, the tag is listed, the torrent goes. */
  function FiringRun(id: int, tag: string): seq<Event> {
    [TorrentAdded(id, {tag}), TagAdded(tag), TorrentRemoved(id)]
  }

  /** From any exact rows that is a legal run, and the assertion fires at its last event, although only
      the first two are not safe. */
  lemma AssertionFires(items: seq<TagModelItem>, ts: Torrents, id: int, tag: string)
    requires Consistent(items, ts) && id !in ts && IsValidTag(tag) && !HasRow(items, tag)
    ensures LegalRun(RowTags(items), ts, FiringRun(id, tag)) && !NeverFires(items, ts, FiringRun(id, tag))
    ensures Safe(ModelAfter(RowTags(items), Init(FiringRun(id, tag))), TorrentsAfter(ts, Init(FiringRun(id, tag))),
                 TorrentRemoved(id))
  {
    FiringLegal(RowTags(items), ts, id, tag);
    NeverFiresIff(items, ts, FiringRun(id, tag));
    FiringShort(RowTags(items), ts, id, tag);
  }

  lemma FiringSteps(model: set<string>, ts: Torrents, id: int, tag: string)
    ensures var run := FiringRun(id, tag);
            && Init(run) == [TorrentAdded(id, {tag}), TagAdded(tag)] && Init(Init(run)) == [TorrentAdded(id, {tag})]
            && Init(Init(Init(run))) == [] && Last(run) == TorrentRemoved(id)
            && Last(Init(run)) == TagAdded(tag) && Last(Init(Init(run))) == TorrentAdded(id, {tag})
  {
  }

  lemma FiringStates(model: set<string>, ts: Torrents, id: int, tag: string)
    ensures var listed := Init(FiringRun(id, tag));
            && TorrentsAfter(ts, Init(listed)) == ts[id := {tag}] == TorrentsAfter(ts, listed)
            && ModelAfter(model, Init(listed)) == model && ModelAfter(model, listed) == model + {tag}
            && TorrentsAfter(ts, []) == ts && ModelAfter(model, []) == model
  {
    FiringSteps(model, ts, id, tag);
    var loaded := Init(Init(FiringRun(id, tag)));
    assert TorrentsAfter(ts, loaded) == TorrentsNext(TorrentsAfter(ts, []), TorrentAdded(id, {tag}));
    assert ModelAfter(model, loaded) == ModelNext(ModelAfter(model, []), TorrentAdded(id, {tag}));
  }

  lemma FiringLegal(model: set<string>, ts: Torrents, id: int, tag: string)
    requires id !in ts && IsValidTag(tag) && tag !in model
    ensures LegalRun(model, ts, FiringRun(id, tag))
    ensures Safe(ModelAfter(model, Init(FiringRun(id, tag))), TorrentsAfter(ts, Init(FiringRun(id, tag))),
                 TorrentRemoved(id))
  {
    FiringSteps(model, ts, id, tag);
    FiringStates(model, ts, id, tag);
    SpecialTagsInvalid();
    assert LegalRun(model, ts, []);
    assert LegalRun(model, ts, Init(Init(FiringRun(id, tag))));
    assert LegalRun(model, ts, Init(FiringRun(id, tag)));
  }

  /** The row shows nothing when the torrent goes. */
  lemma FiringShort(model: set<string>, ts: Torrents, id: int, tag: string)
    requires id !in ts
    ensures !EnoughShown(model, ts, FiringRun(id, tag))
  {
    FiringSteps(model, ts, id, tag);
    FiringStates(model, ts, id, tag);
    var listed := Init(FiringRun(id, tag));
    assert TaggedAtListing(ts, listed, tag) == Some(Tagged(ts[id := {tag}], tag));
    assert tag in TagsAfter(model, ts, listed) && TagsAfter(model, ts, listed)[tag] == 0;
    assert tag in TorrentsAfter(ts, listed)[id];
  }

  /** A torrent that comes with tags of which none has a row, and goes again, leaves "Untagged" one too
      high. */
  lemma UnlistedTagsStick(items: seq<TagModelItem>, ts: Torrents, id: int, tags: set<string>)
    requires Shaped(items) && id !in ts && tags != {} && Found(items, tags) == {}
    ensures AfterRemoving(AfterAdding(items, tags), tags) == Moved(items, {1}, 1)
    ensures ts[id := tags] - {id} == ts
    ensures Drift(AfterRemoving(AfterAdding(items, tags), tags), ts, 1) == Drift(items, ts, 1) + 1
  {
    var once := Moved(items, {0, 1}, 1);
    FoundMoved(items, {0, 1}, 1, tags);
    assert Moved(once, {}, 1) == once;
    assert Moved(once, {0}, -1) == Moved(items, {1}, 1);
    assert Moved(Moved(items, {1}, 1), {}, -1) == Moved(items, {1}, 1);
  }

  function AsSet(rows: seq<int>): set<int> {
    set i | i in rows
  }

  class TagFilterModel {
    var m_tagItems: seq<TagModelItem>

    constructor (tags: seq<string>, ts: Torrents)
      requires forall i :: 0 <= i < |tags| ==> IsValidTag(tags[i])
      requires forall i, j :: 0 <= i < j < |tags| ==> tags[i] != tags[j]
      ensures Consistent(m_tagItems, ts) && Listed(m_tagItems, tags)
    {
      m_tagItems := [];
      new;
      Populate(tags, ts);
    }

    /** populate(), on an empty list. */
    method Populate(tags: seq<string>, ts: Torrents)
      requires m_tagItems == []
      requires forall i :: 0 <= i < |tags| ==> IsValidTag(tags[i])
      requires forall i, j :: 0 <= i < j < |tags| ==> tags[i] != tags[j]
      modifies this
      ensures Consistent(m_tagItems, ts) && Listed(m_tagItems, tags)
      ensures |m_tagItems| == |tags| + 2
      ensures m_tagItems[0] == TagModelItem(" ", |ts|)
      ensures m_tagItems[1] == TagModelItem("  ", |set id | id in ts && ts[id] == {}|)
      ensures forall i :: 0 <= i < |tags| ==>
                m_tagItems[i + 2] == TagModelItem(tags[i], |set id | id in ts && tags[i] in ts[id]|)
    {
      AddToModel(ALL_TAG, |ts|);
      AddToModel(UNTAGGED_TAG, |set id | id in ts && ts[id] == {}|);
      ListedStart(m_tagItems, ts);
      for n := 0 to |tags|
        invariant Listed(m_tagItems, tags[..n]) && Exact(m_tagItems, ts)
      {
        ListedMore(m_tagItems, tags, n, ts);
        AddToModel(tags[n], |set id | id in ts && tags[n] in ts[id]|);
      }
      assert tags[..|tags|] == tags;
      ListedShaped(m_tagItems, tags);
      forall i | 0 <= i < |tags|
        ensures m_tagItems[i + 2] == TagModelItem(tags[i], |set id | id in ts && tags[i] in ts[id]|)
      {
        assert m_tagItems[i + 2].torrentsCount == Recount(m_tagItems, ts, i + 2);
      }
    }

    method AddToModel(tag: string, count: int)
      modifies this
      ensures m_tagItems == old(m_tagItems) + [TagModelItem(tag, count)]
    {
      m_tagItems := m_tagItems + [TagModelItem(tag, count)];
    }

    method RemoveFromModel(row: int)
      requires 0 <= row < |m_tagItems|
      modifies this
      ensures m_tagItems == old(m_tagItems)[..row] + old(m_tagItems)[row + 1..]
    {
      m_tagItems := m_tagItems[..row] + m_tagItems[row + 1..];
    }

    method FindRow(tag: string) returns (row: int)
      ensures -1 <= row < |m_tagItems|
      ensures row >= 0 ==> m_tagItems[row].tag == tag
      ensures row < 0 ==> forall i :: 0 <= i < |m_tagItems| ==> m_tagItems[i].tag != tag
    {
      row := 0;
      while row < |m_tagItems|
        invariant 0 <= row <= |m_tagItems|
        invariant forall i :: 0 <= i < row ==> m_tagItems[i].tag != tag
      {
        if m_tagItems[row].tag == tag {
          return;
        }
        row := row + 1;
      }
      row := -1;
    }

    method Increase(row: int)
      requires 0 <= row < |m_tagItems|
      modifies this
      ensures m_tagItems == Moved(old(m_tagItems), {row}, 1)
    {
      m_tagItems := m_tagItems[row := m_tagItems[row].(torrentsCount := m_tagItems[row].torrentsCount + 1)];
    }

    /** decreaseTorrentsCount; the precondition is its assertion. */
    method Decrease(row: int)
      requires 0 <= row < |m_tagItems| && m_tagItems[row].torrentsCount > 0
      modifies this
      ensures m_tagItems == Moved(old(m_tagItems), {row}, -1)
    {
      m_tagItems := m_tagItems[row := m_tagItems[row].(torrentsCount := m_tagItems[row].torrentsCount - 1)];
    }

    /** findItems: the rows of the tags that are in the model, in the set's own, arbitrary, order. */
    method FindItems(tags: set<string>) returns (rows: seq<int>)
      requires TagsDistinct(m_tagItems)
      ensures NoDup(rows) && AsSet(rows) == Found(m_tagItems, tags)
      ensures rows == [] <==> Found(m_tagItems, tags) == {}
    {
      rows := [];
      var rest := tags;
      while rest != {}
        invariant rest <= tags && NoDup(rows)
        invariant forall i :: i in rows <==> 0 <= i < |m_tagItems| && m_tagItems[i].tag in tags - rest
        decreases rest
      {
        var tag :| tag in rest;
        var row := FindRow(tag);
        if row >= 0 {
          rows := rows + [row];
        }
        rest := rest - {tag};
      }
      assert |rows| > 0 ==> rows[0] in AsSet(rows);
    }

    /** The loops over the found items. */
    method IncreaseAll(rows: seq<int>)
      requires NoDup(rows) && forall i :: i in rows ==> 0 <= i < |m_tagItems|
      modifies this
      ensures m_tagItems == Moved(old(m_tagItems), AsSet(rows), 1)
    {
      ghost var items := m_tagItems;
      for n := 0 to |rows|
        invariant m_tagItems == Moved(items, AsSet(rows[..n]), 1)
      {
        assert rows[n] in rows && rows[n] !in rows[..n];
        Increase(rows[n]);
        MovedMore(items, AsSet(rows[..n]), {rows[n]}, 1);
        assert rows[..n + 1] == rows[..n] + [rows[n]];
      }
      assert rows[..|rows|] == rows;
    }

    method DecreaseAll(rows: seq<int>)
      requires NoDup(rows) && forall i :: i in rows ==> 0 <= i < |m_tagItems| && m_tagItems[i].torrentsCount > 0
      modifies this
      ensures m_tagItems == Moved(old(m_tagItems), AsSet(rows), -1)
    {
      ghost var items := m_tagItems;
      for n := 0 to |rows|
        invariant m_tagItems == Moved(items, AsSet(rows[..n]), -1)
      {
        assert rows[n] in rows && rows[n] !in rows[..n];
        Decrease(rows[n]);
        MovedMore(items, AsSet(rows[..n]), {rows[n]}, -1);
        assert rows[..n + 1] == rows[..n] + [rows[n]];
      }
      assert rows[..|rows|] == rows;
    }

    // ----- slots, on any rows; `ts` are the torrents before the event ---------------------------

    method TagAdded(ghost ts: Torrents, tag: string)
      requires Shaped(m_tagItems) && Legal(RowTags(m_tagItems), ts, Event.TagAdded(tag))
      modifies this
      ensures m_tagItems == RowsNext(old(m_tagItems), ts, Event.TagAdded(tag))
    {
      AddToModel(tag, 0);
    }

    method TagRemoved(ghost ts: Torrents, tag: string)
      requires Shaped(m_tagItems) && Legal(RowTags(m_tagItems), ts, Event.TagRemoved(tag))
      modifies this
      ensures m_tagItems == RowsNext(old(m_tagItems), ts, Event.TagRemoved(tag))
    {
      ListedNotSpecial(m_tagItems, tag);
      var row := FindRow(tag);
      RemoveFromModel(row);
    }

    /** The tag is listed before a torrent gains it: the row the slot asserts exists. */
    method TorrentTagAdded(ghost ts: Torrents, id: int, tags: set<string>, tag: string)
      requires Shaped(m_tagItems) && Legal(RowTags(m_tagItems), ts, Event.TorrentTagAdded(id, tag))
      requires Asserted(m_tagItems, ts, Event.TorrentTagAdded(id, tag)) && tags == ts[id] + {tag}
      modifies this
      ensures m_tagItems == RowsNext(old(m_tagItems), ts, Event.TorrentTagAdded(id, tag))
    {
      ghost var items := m_tagItems;
      OnlyTag(ts[id], tag);
      if |tags| == 1 {
        Decrease(1);
      }
      ghost var rows := if ts[id] == {} then {1} else {};
      assert m_tagItems == Moved(items, rows, -1);
      var row := FindRow(tag);
      RowFound(items, rows, -1, tag, row);
      assert row >= 0 by { assert HasRow(items, tag); }
      Increase(row);
    }

    /** A tag without a row is passed over. */
    method TorrentTagRemoved(ghost ts: Torrents, id: int, tags: set<string>, tag: string)
      requires Shaped(m_tagItems) && Legal(RowTags(m_tagItems), ts, Event.TorrentTagRemoved(id, tag))
      requires Asserted(m_tagItems, ts, Event.TorrentTagRemoved(id, tag)) && tags == ts[id] - {tag}
      modifies this
      ensures m_tagItems == RowsNext(old(m_tagItems), ts, Event.TorrentTagRemoved(id, tag))
    {
      ghost var items := m_tagItems;
      if tags == {} {
        Increase(1);
      }
      ghost var rows := if tags == {} then {1} else {};
      assert m_tagItems == Moved(items, rows, 1);
      var row := FindRow(tag);
      RowFound(items, rows, 1, tag, row);
      if row < 0 {
        MovedNowhere(m_tagItems, -1);
        return;
      }
      Decrease(row);
    }

    method TorrentAdded(ghost ts: Torrents, id: int, tags: set<string>)
      requires Shaped(m_tagItems) && id !in ts
      modifies this
      ensures m_tagItems == RowsNext(old(m_tagItems), ts, Event.TorrentAdded(id, tags))
    {
      ghost var items := m_tagItems;
      Increase(0);
      FoundMoved(items, {0}, 1, tags);
      MovedShaped(items, {0}, 1);
      var rows := FindItems(tags);
      if rows == [] {
        Increase(1);
      }
      MovedMore(items, {0}, {1}, 1);
      assert {0} + {1} == {0, 1};
      InFound(items, tags, rows);
      IncreaseAll(rows);
    }

    method TorrentAboutToBeRemoved(ghost ts: Torrents, id: int, tags: set<string>)
      requires Shaped(m_tagItems) && id in ts && tags == ts[id]
      requires Asserted(m_tagItems, ts, Event.TorrentRemoved(id))
      modifies this
      ensures m_tagItems == RowsNext(old(m_tagItems), ts, Event.TorrentRemoved(id))
    {
      ghost var items := m_tagItems;
      ghost var base := if tags == {} then {0, 1} else {0};
      DecreaseSpecial(tags);
      FoundMoved(items, base, -1, tags);
      MovedShaped(items, base, -1);
      var rows := FindItems(tags);
      InFound(items, tags, rows);
      DecreaseAll(rows);
    }

    /** "All", and "Untagged" for a torrent without tags. */
    method DecreaseSpecial(tags: set<string>)
      requires |m_tagItems| >= 2 && m_tagItems[0].torrentsCount > 0
      requires tags == {} ==> m_tagItems[1].torrentsCount > 0
      modifies this
      ensures m_tagItems == Moved(old(m_tagItems), if tags == {} then {0, 1} else {0}, -1)
    {
      Decrease(0);
      if tags == {} {
        Decrease(1);
      }
    }

    // ----- whole runs -------------------------------------------------------------------------

    /** Replay any legal run of session events in order, as long as the assertion holds. */
    method Replay(ts: Torrents, events: seq<Event>) returns (ts': Torrents)
      requires Shaped(m_tagItems) && LegalRun(RowTags(m_tagItems), ts, events) && NeverFires(m_tagItems, ts, events)
      modifies this
      ensures ts' == TorrentsAfter(ts, events) && m_tagItems == RowsAfter(old(m_tagItems), ts, events)
    {
      ts' := ts;
      ghost var items := m_tagItems;
      PrefixFine(items, ts, events, 0);
      for n := 0 to |events|
        invariant LegalRun(RowTags(items), ts, events[..n])
        invariant ts' == TorrentsAfter(ts, events[..n]) && m_tagItems == RowsAfter(items, ts, events[..n])
      {
        NextFine(items, ts, events, n);
        HandleEvent(ts', events[n]);
        ts' := TorrentsNext(ts', events[n]);
      }
      assert events[..|events|] == events;
    }

    method HandleEvent(ts: Torrents, e: Event)
      requires Shaped(m_tagItems) && Legal(RowTags(m_tagItems), ts, e) && Asserted(m_tagItems, ts, e)
      modifies this
      ensures m_tagItems == RowsNext(old(m_tagItems), ts, e)
      ensures Shaped(m_tagItems) && RowTags(m_tagItems) == ModelNext(old(RowTags(m_tagItems)), e)
    {
      RowsNextShaped(m_tagItems, ts, e);
      match e
      case TagAdded(tag) => TagAdded(ts, tag);
      case TagRemoved(tag) => TagRemoved(ts, tag);
      case TorrentTagAdded(id, tag) => TorrentTagAdded(ts, id, ts[id] + {tag}, tag);
      case TorrentTagRemoved(id, tag) => TorrentTagRemoved(ts, id, ts[id] - {tag}, tag);
      case TorrentAdded(id, tags) => TorrentAdded(ts, id, tags);
      case TorrentRemoved(id) => TorrentAboutToBeRemoved(ts, id, ts[id]);
    }
  }
}
