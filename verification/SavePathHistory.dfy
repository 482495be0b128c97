/** The most-recently-used save paths of src/gui/addnewtorrentdialog.cpp. Two paths name the same
    directory when QDir says so; that comparison is the function `canon`. */
module SavePathHistory {
  import opened Collections

  const MIN_LENGTH := 0
  const MAX_LENGTH := 99
  const DEFAULT_LENGTH := 8

  /** qBound: a value in range is kept, any other gives the nearer end. */
  function Bound(value: int): (r: nat)
    ensures 0 <= value <= 99 ==> r == value
    ensures value < 0 ==> r == 0
    ensures value > 99 ==> r == 99
  {
    if value < MIN_LENGTH then MIN_LENGTH else if value > MAX_LENGTH then MAX_LENGTH else value
  }

  /** QStringList::mid(0, n). */
  function Take<T>(s: seq<T>, n: nat): seq<T> {
    if n <= |s| then s[..n] else s
  }

  function Minus<T(==)>(s: seq<T>, x: T): seq<T> {
    if s == [] then [] else if s[0] == x then Minus(s[1..], x) else [s[0]] + Minus(s[1..], x)
  }

  /** The distinct directories of `saved`, latest first: the de-duplicated reverse. */
  function Recent<T(==)>(saved: seq<T>): seq<T> {
    if saved == [] then []
    else
      var last := saved[|saved| - 1];
      [last] + Minus(Recent(saved[..|saved| - 1]), last)
  }

  /** The position of the latest use of `x`. */
  function LastUse<T(==)>(saved: seq<T>, x: T): (i: int)
    ensures -1 <= i < |saved|
    ensures i >= 0 ==> saved[i] == x
    ensures forall k :: i < k < |saved| ==> saved[k] != x
  {
    if saved == [] then -1
    else if saved[|saved| - 1] == x then |saved| - 1
    else LastUse(saved[..|saved| - 1], x)
  }

  lemma {:induction false} MinusFacts<T>(s: seq<T>, x: T)
    ensures forall y :: y in Minus(s, x) <==> y in s && y != x
    ensures NoDup(s) ==> NoDup(Minus(s, x))
    ensures x !in s ==> Minus(s, x) == s
  {
    if s != [] {
      MinusFacts(s[1..], x);
      assert s == [s[0]] + s[1..];
      if NoDup(s) {
        assert s[0] !in s[1..];
        assert s[0] !in Minus(s[1..], x);
      }
    }
  }

  /** Minus keeps the order: it is a subsequence, so a property of ordered pairs carries over. */
  lemma {:induction false} MinusKeepsOrder<T(!new)>(s: seq<T>, x: T, before: (T, T) -> bool)
    requires forall i, j :: 0 <= i < j < |s| ==> before(s[i], s[j])
    ensures forall i, j :: 0 <= i < j < |Minus(s, x)| ==> before(Minus(s, x)[i], Minus(s, x)[j])
  {
    if s != [] {
      MinusKeepsOrder(s[1..], x, before);
      MinusFacts(s[1..], x);
      if s[0] != x {
        var m := Minus(s[1..], x);
        forall j | 0 <= j < |m|
          ensures before(s[0], m[j])
        {
          assert m[j] in s[1..];
        }
      }
    }
  }

  /** Recent is what its name says: the used directories, none twice, ordered by latest use. */
  lemma {:induction false} RecentFacts<T(!new)>(saved: seq<T>)
    ensures NoDup(Recent(saved))
    ensures forall x :: x in Recent(saved) <==> x in saved
    ensures forall i, j :: 0 <= i < j < |Recent(saved)| ==>
              LastUse(saved, Recent(saved)[i]) > LastUse(saved, Recent(saved)[j])
  {
    if saved != [] {
      var n := |saved| - 1;
      var init, last := saved[..n], saved[n];
      RecentFacts(init);
      MinusFacts(Recent(init), last);
      MinusKeepsOrder(Recent(init), last, (a, b) => LastUse(init, a) > LastUse(init, b));
      assert saved == init + [last];
    }
  }

  /** One save, on the directories of the history. */
  function Saved<T(==)>(h: seq<T>, dir: T, limit: nat): seq<T> {
    Take([dir] + Minus(h, dir), limit)
  }

  // ----- the stored setting -----------------------------------------------------------

  function Map<A, B>(s: seq<A>, f: A -> B): (r: seq<B>)
    ensures |r| == |s| && forall i :: 0 <= i < |s| ==> r[i] == f(s[i])
  {
    seq(|s|, i requires 0 <= i < |s| => f(s[i]))
  }

  class SavePathSettings {
    const canon: string -> string
    /** QDir::absolutePath; it names the same directory. */
    const absolutePath: string -> string
    var length: int
    var history: seq<string>
    /** The directories saved so far. */
    ghost var saved: seq<string>

    ghost predicate Valid()
      reads this
    {
      && (forall p :: canon(absolutePath(p)) == canon(p))
      && Map(history, canon) <= Recent(saved)
      && |history| <= SavePathHistoryLength()
    }

    constructor (canon: string -> string, absolutePath: string -> string)
      requires forall p :: canon(absolutePath(p)) == canon(p)
      ensures Valid() && history == [] && saved == [] && SavePathHistoryLength() == 8
      ensures this.canon == canon && this.absolutePath == absolutePath
    {
      this.canon, this.absolutePath := canon, absolutePath;
      length, history, saved := DEFAULT_LENGTH, [], [];
    }

    function SavePathHistoryLength(): nat
      reads `length
    {
      Bound(length)
    }

    method SetSavePathHistoryLength(value: int)
      requires Valid()
      modifies this
      ensures Valid() && saved == old(saved)
      ensures SavePathHistoryLength() == if value < 0 then 0 else if value > 99 then 99 else value
      ensures history == if |old(history)| <= SavePathHistoryLength() then old(history)
                         else old(history)[..SavePathHistoryLength()]
    {
      var clampedValue := Bound(value);
      if clampedValue == SavePathHistoryLength() {
        return;
      }
      length := clampedValue;
      history := Take(history, clampedValue);
    }

    method SaveSavePathHistory(selectedPath: string)
      requires Valid()
      modifies `history, `saved
      ensures Valid() && saved == old(saved) + [canon(selectedPath)]
      ensures Map(history, canon) == Saved(old(Map(history, canon)), canon(selectedPath), SavePathHistoryLength())
      ensures var was := old(history);
              var i := IndexOf(Map(was, canon), canon(selectedPath));
              var moved := if i == 0 then was
                           else [absolutePath(selectedPath)] + if i > 0 then was[..i] + was[i + 1..] else was;
              history == if |moved| <= SavePathHistoryLength() then moved else moved[..SavePathHistoryLength()]
    {
      var updated := MoveToFront(selectedPath);
      HistoryStep(history, saved, selectedPath, updated, SavePathHistoryLength(), canon, absolutePath);
      history := Take(updated, SavePathHistoryLength());
      saved := saved + [canon(selectedPath)];
    }

    /** removeAt and push_front. */
    method MoveToFront(selectedPath: string) returns (updated: seq<string>)
      ensures var i := IndexOf(Map(history, canon), canon(selectedPath));
              updated == if i == 0 then history
                         else [absolutePath(selectedPath)]
                              + if i > 0 then history[..i] + history[i + 1..] else history
    {
      var historyDirs := Map(history, canon);
      var selectedIndex := IndexOf(historyDirs, canon(selectedPath));
      updated := history;
      if selectedIndex > 0 {
        updated := updated[..selectedIndex] + updated[selectedIndex + 1..];
      }
      if selectedIndex != 0 {
        updated := [absolutePath(selectedPath)] + updated;
      }
    }
  }

  /** The list operations of a save, seen on directories. */
  lemma HistoryStep(h: seq<string>, saved: seq<string>, path: string, updated: seq<string>, limit: nat,
                    canon: string -> string, absolutePath: string -> string)
    requires canon(absolutePath(path)) == canon(path) && Map(h, canon) <= Recent(saved)
    requires var i := IndexOf(Map(h, canon), canon(path));
             updated == if i == 0 then h
                        else [absolutePath(path)] + if i > 0 then h[..i] + h[i + 1..] else h
    ensures Map(Take(updated, limit), canon) == Saved(Map(h, canon), canon(path), limit)
    ensures Map(Take(updated, limit), canon) <= Recent(saved + [canon(path)])
  {
    var dirs, dir := Map(h, canon), canon(path);
    PrefixNoDup(dirs, saved);
    UpdatedDirs(h, path, updated, canon, absolutePath);
    SavedStaysPrefix(dirs, saved, dir);
    MapTake(updated, limit, canon);
  }

  /** Before it is cut, the new list names the selected directory, then the others in their order. */
  lemma UpdatedDirs(h: seq<string>, path: string, updated: seq<string>, canon: string -> string,
                    absolutePath: string -> string)
    requires canon(absolutePath(path)) == canon(path) && NoDup(Map(h, canon))
    requires var i := IndexOf(Map(h, canon), canon(path));
             updated == if i == 0 then h
                        else [absolutePath(path)] + if i > 0 then h[..i] + h[i + 1..] else h
    ensures Map(updated, canon) == [canon(path)] + Minus(Map(h, canon), canon(path))
  {
    var i := IndexOf(Map(h, canon), canon(path));
    MovedToFront(Map(h, canon), canon(path), i);
    MapMoved(h, i, absolutePath(path), canon);
  }

  lemma MapTake<A, B>(s: seq<A>, n: nat, f: A -> B)
    ensures Map(Take(s, n), f) == Take(Map(s, f), n)
  {
  }

  /** Directories of the moved list: the move commutes with naming directories. */
  lemma MapMoved<A, B>(h: seq<A>, index: int, p: A, f: A -> B)
    requires -1 <= index < |h|
    ensures index < 0 ==> Map([p] + h, f) == [f(p)] + Map(h, f)
    ensures index >= 0 ==> Map([p] + (h[..index] + h[index + 1..]), f) ==
                           [f(p)] + Map(h, f)[..index] + Map(h, f)[index + 1..]
  {
  }

  lemma PrefixNoDup<T(!new)>(dirs: seq<T>, saved: seq<T>)
    requires dirs <= Recent(saved)
    ensures NoDup(dirs)
  {
    RecentFacts(saved);
    assert forall i :: 0 <= i < |dirs| ==> dirs[i] == Recent(saved)[i];
  }

  /** Taking out the found entry and putting it in front is Minus. */
  lemma MovedToFront<T>(dirs: seq<T>, dir: T, index: int)
    requires NoDup(dirs) && index == IndexOf(dirs, dir)
    ensures [dir] + Minus(dirs, dir) ==
            if index < 0 then [dir] + dirs
            else if index == 0 then dirs
            else [dir] + dirs[..index] + dirs[index + 1..]
  {
    MinusFacts(dirs, dir);
    if index >= 0 {
      MinusAt(dirs, dir, index);
    }
  }

  lemma {:induction false} MinusAt<T>(dirs: seq<T>, dir: T, index: nat)
    requires NoDup(dirs) && index < |dirs| && dirs[index] == dir
    ensures Minus(dirs, dir) == dirs[..index] + dirs[index + 1..]
  {
    if index == 0 {
      MinusFacts(dirs[1..], dir);
    } else {
      MinusAt(dirs[1..], dir, index - 1);
      assert dirs[..index] == [dirs[0]] + dirs[1..][..index - 1];
    }
  }

  /** Moving an entry to the front of a prefix gives a prefix of moving it to the front of the whole. */
  lemma SavedStaysPrefix<T(!new)>(dirs: seq<T>, saved: seq<T>, dir: T)
    requires dirs <= Recent(saved)
    ensures [dir] + Minus(dirs, dir) <= Recent(saved + [dir])
  {
    var all := Recent(saved);
    assert (saved + [dir])[..|saved|] == saved;
    assert all == dirs + all[|dirs|..];
    MinusConcat(dirs, all[|dirs|..], dir);
  }

  lemma {:induction false} MinusConcat<T>(a: seq<T>, b: seq<T>, x: T)
    ensures Minus(a + b, x) == Minus(a, x) + Minus(b, x)
  {
    if a == [] {
      assert a + b == b;
    } else {
      MinusConcat(a[1..], b, x);
      assert (a + b)[1..] == a[1..] + b && (a + b)[0] == a[0];
      var p, q := Minus(a[1..], x), Minus(b, x);
      assert [a[0]] + (p + q) == ([a[0]] + p) + q;
    }
  }

  // ----- any run with a constant limit --------------------------------------------------

  function HistoryAfter<T(==)>(h: seq<T>, run: seq<T>, limit: nat): seq<T>
    decreases |run|
  {
    if run == [] then h else HistoryAfter(Saved(h, run[0], limit), run[1..], limit)
  }

  /** Cutting before or after the move to the front is the same, once cut. */
  lemma TakeSaved<T(!new)>(all: seq<T>, dir: T, limit: nat)
    requires NoDup(all)
    ensures Saved(Take(all, limit), dir, limit) == Take([dir] + Minus(all, dir), limit)
  {
    if limit <= |all| {
      var head, rest := all[..limit], all[limit..];
      assert all == head + rest;
      MinusConcat(head, rest, dir);
      MinusLength(head, dir);
      assert [dir] + Minus(all, dir) == ([dir] + Minus(head, dir)) + Minus(rest, dir);
    }
  }

  lemma {:induction false} MinusLength<T>(s: seq<T>, x: T)
    requires NoDup(s)
    ensures |s| - 1 <= |Minus(s, x)| <= |s|
  {
    if s != [] {
      if s[0] == x {
        MinusFacts(s[1..], x);
      } else {
        MinusLength(s[1..], x);
      }
    }
  }

  /** With a constant limit the history is the first `limit` entries of the de-duplicated reverse. */
  lemma {:induction false} ConstantLimit<T(!new)>(saved: seq<T>, run: seq<T>, limit: nat)
    ensures HistoryAfter(Take(Recent(saved), limit), run, limit) == Take(Recent(saved + run), limit)
    decreases |run|
  {
    if run == [] {
      assert saved + run == saved;
    } else {
      var next := saved + [run[0]];
      assert next[..|saved|] == saved;
      assert next + run[1..] == saved + run;
      RecentFacts(saved);
      TakeSaved(Recent(saved), run[0], limit);
      ConstantLimit(next, run[1..], limit);
    }
  }

  lemma FromEmpty<T(!new)>(run: seq<T>, limit: nat)
    ensures HistoryAfter([], run, limit) == Take(Recent(run), limit)
  {
    ConstantLimit([], run, limit);
    assert [] + run == run;
    assert Take(Recent<T>([]), limit) == [];
  }
}
