/** Category names and the uid paths they denote.
    Models Session::isValidCategoryName / expandCategory (src/base/bittorrent/session.cpp)
    and shortName (src/gui/categoryfiltermodel.cpp). */
module CategoryPaths {
  import opened Strings

  /** The position of a node in the category tree: the uids from the root down to it. */
  datatype Path = Root | At(up: Path, uid: string)

  /** `a` is `p` itself or one of its ancestors. */
  predicate Above(a: Path, p: Path) {
    a == p || (p.At? && Above(a, p.up))
  }

  function Depth(p: Path): nat {
    if p.Root? then 0 else 1 + Depth(p.up)
  }

  lemma {:induction false} AboveTransitive(a: Path, b: Path, c: Path)
    requires Above(a, b) && Above(b, c)
    ensures Above(a, c)
    decreases c
  {
    if b != c {
      AboveTransitive(a, b, c.up);
    }
  }

  lemma {:induction false} AboveDepth(a: Path, p: Path)
    requires Above(a, p)
    ensures Depth(a) <= Depth(p)
    ensures Depth(a) == Depth(p) ==> a == p
    ensures Depth(a) + 1 == Depth(p) ==> p.At? && p.up == a
    decreases p
  {
    if a != p {
      AboveDepth(a, p.up);
    }
  }

  lemma NotAboveParent(p: Path)
    requires p.At?
    ensures !Above(p, p.up)
  {
    if Above(p, p.up) {
      AboveDepth(p, p.up);
    }
  }

  /** A strict descendant of `a` lies under exactly one child of `a`. */
  function {:induction false} ChildToward(a: Path, p: Path): (u: string)
    requires Above(a, p) && a != p
    ensures Above(At(a, u), p)
    decreases p
  {
    if p.up == a then p.uid else ChildToward(a, p.up)
  }

  lemma {:induction false} ChildTowardUnique(a: Path, u: string, p: Path)
    requires Above(At(a, u), p)
    ensures Above(a, p) && a != p && ChildToward(a, p) == u
    decreases p
  {
    if At(a, u) == p {
      AboveDepth(a, a);
    } else {
      ChildTowardUnique(a, u, p.up);
      if p == a { AboveDepth(a, p.up); }
    }
  }

  lemma UnderChild(a: Path, u: string)
    ensures forall p :: Above(At(a, u), p) <==> Above(a, p) && a != p && ChildToward(a, p) == u
  {
    forall p | Above(At(a, u), p)
      ensures Above(a, p) && a != p && ChildToward(a, p) == u
    {
      ChildTowardUnique(a, u, p);
    }
  }

  // ----- names ----------------------------------------------------------------

  const UID_ALL: string := ""
  const UID_UNCATEGORIZED: string := "\U{01}"

  /** The index of the last '/' of `s`, or -1. */
  function LastSlash(s: string): (i: int)
    ensures -1 <= i < |s|
    ensures i >= 0 ==> s[i] == '/'
    ensures forall k :: i < k < |s| ==> s[k] != '/'
  {
    if s == [] then -1
    else if s[|s| - 1] == '/' then |s| - 1
    else LastSlash(s[..|s| - 1])
  }

  function ShortName(fullName: string): string {
    var pos := LastSlash(fullName);
    if pos >= 0 then fullName[pos + 1..] else fullName
  }

  predicate SlashFree(s: string) {
    forall k :: 0 <= k < |s| ==> s[k] != '/'
  }

  /** The empty name is accepted; otherwise no backslash, no leading or trailing '/' and no "//". */
  predicate IsValidCategoryName(name: string) {
    && (forall k :: 0 <= k < |name| ==> name[k] != '\\')
    && (name != "" ==> name[0] != '/' && name[|name| - 1] != '/')
    && (forall k :: 0 <= k < |name| - 1 && name[k] == '/' ==> name[k + 1] != '/')
  }

  /** The prefixes of `s` that are followed by a '/', shortest first. */
  function ProperPrefixes(s: string): seq<string> {
    var i := LastSlash(s);
    if i < 0 then [] else ProperPrefixes(s[..i]) + [s[..i]]
  }

  function Expand(category: string): (r: seq<string>)
    ensures r != []
  {
    ProperPrefixes(category) + [category]
  }

  /** QString::indexOf: the first `c` at or after `from`, or -1. */
  method IndexOfChar(s: string, c: char, from: nat) returns (index: int)
    requires from <= |s|
    ensures index == -1 || from <= index < |s|
    ensures index >= 0 ==> s[index] == c
    ensures forall k :: from <= k < (if index >= 0 then index else |s|) ==> s[k] != c
  {
    index := from;
    while index < |s|
      invariant from <= index <= |s|
      invariant forall k :: from <= k < index ==> s[k] != c
    {
      if s[index] == c { return; }
      index := index + 1;
    }
    index := -1;
  }

  lemma LastSlashIs(s: string, i: int)
    requires -1 <= i < |s|
    requires i >= 0 ==> s[i] == '/'
    requires forall k :: i < k < |s| ==> s[k] != '/'
    ensures LastSlash(s) == i
  {
    var j := LastSlash(s);
    assert i >= 0 && j >= 0 ==> s[i] == s[j];
  }

  /** Characters after the last '/' do not change the proper prefixes. */
  lemma ProperPrefixesStable(s: string, from: nat, to: nat)
    requires from <= to <= |s|
    requires forall k :: from <= k < to ==> s[k] != '/'
    ensures ProperPrefixes(s[..to]) == ProperPrefixes(s[..from])
  {
    var i := LastSlash(s[..from]);
    LastSlashIs(s[..to], i);
    if i >= 0 {
      assert s[..to][..i] == s[..i] == s[..from][..i];
    }
  }

  /** Session::expandCategory: its search loop yields exactly `Expand`, and nothing for an invalid name. */
  method ExpandCategory(category: string) returns (result: seq<string>)
    ensures result == if IsValidCategoryName(category) then Expand(category) else []
  {
    result := [];
    if !IsValidCategoryName(category) {
      return;
    }
    ghost var from := 0;
    var index := IndexOfChar(category, '/', 0);
    while index >= 0
      invariant -1 <= index < |category| && 0 <= from <= |category|
      invariant index >= 0 ==> from <= index && category[index] == '/'
      invariant forall k :: from <= k < (if index >= 0 then index else |category|) ==> category[k] != '/'
      invariant result == ProperPrefixes(category[..from])
      decreases |category| - from
    {
      result := result + [category[..index]];
      ProperPrefixesStable(category, from, index);
      LastSlashIs(category[..index + 1], index);
      assert category[..index + 1][..index] == category[..index];
      from := index + 1;
      index := IndexOfChar(category, '/', index + 1);
    }
    ProperPrefixesStable(category, from, |category|);
    assert category[..|category|] == category;
    result := result + [category];
  }

  /** The tree path a category name denotes when subcategories are on. */
  function PathOf(category: string): (p: Path)
    ensures p.At? && p.uid == ShortName(category)
  {
    var i := LastSlash(category);
    if i < 0 then At(Root, category) else At(PathOf(category[..i]), category[i + 1..])
  }

  /** fullName() as a function of the path: uids below the root joined by '/'. */
  function FullNameOf(p: Path): string
    requires p.At?
  {
    if p.up.Root? then p.uid else FullNameOf(p.up) + "/" + p.uid
  }

  /** Every uid below the root is non-empty and holds neither '/' nor a backslash. */
  predicate CleanPath(p: Path) {
    p.At? ==> p.uid != "" && SlashFree(p.uid) && (forall k :: 0 <= k < |p.uid| ==> p.uid[k] != '\\') && CleanPath(p.up)
  }

  lemma {:induction false} FullNameOfPathOf(c: string)
    ensures FullNameOf(PathOf(c)) == c
    decreases |c|
  {
    var i := LastSlash(c);
    if i >= 0 {
      FullNameOfPathOf(c[..i]);
      assert c == c[..i] + "/" + c[i + 1..];
    }
  }

  lemma {:induction false} PathOfFullName(p: Path)
    requires p.At? && CleanPath(p)
    ensures PathOf(FullNameOf(p)) == p
    ensures FullNameOf(p) != "" && IsValidCategoryName(FullNameOf(p))
    decreases p
  {
    if p.up.Root? {
      LastSlashIs(p.uid, -1);
    } else {
      PathOfFullName(p.up);
      JoinedName(FullNameOf(p.up), p.uid);
    }
  }

  /** Appending "/" and a clean component to a valid name. */
  lemma JoinedName(a: string, uid: string)
    requires a != "" && IsValidCategoryName(a)
    requires uid != "" && SlashFree(uid) && forall k :: 0 <= k < |uid| ==> uid[k] != '\\'
    ensures var s := a + "/" + uid;
            IsValidCategoryName(s) && LastSlash(s) == |a| && s[..|a|] == a && s[|a| + 1..] == uid
  {
    var s := a + "/" + uid;
    assert forall k :: 0 <= k < |s| ==> s[k] == if k < |a| then a[k] else if k == |a| then '/' else uid[k - |a| - 1];
    LastSlashIs(s, |a|);
  }

  /** A valid non-empty name denotes a clean path. */
  lemma {:induction false} ValidNameCleanPath(c: string)
    requires c != "" && IsValidCategoryName(c)
    ensures CleanPath(PathOf(c))
    decreases |c|
  {
    var i := LastSlash(c);
    if i >= 0 {
      ValidPrefix(c);
      ValidNameCleanPath(c[..i]);
    }
  }

  lemma ValidPrefix(c: string)
    requires c != "" && IsValidCategoryName(c) && LastSlash(c) >= 0
    ensures var i := LastSlash(c); c[..i] != "" && IsValidCategoryName(c[..i])
  {
    var i := LastSlash(c);
    assert c[..i][|c[..i]| - 1] == c[i - 1] != '/';
  }

  /** A name is valid exactly when splitting it at the slashes gives non-empty components without
      backslash. */
  lemma {:induction false} ValidIff(c: string)
    requires c != ""
    ensures IsValidCategoryName(c) <==> forall part :: part in Split(c, '/') ==> part != "" && '\\' !in part
    decreases |c|
  {
    var i := LastSlash(c);
    if i < 0 {
      SplitFree(c, '/');
      ValidComponent(c);
    } else {
      var a, b := c[..i], c[i + 1..];
      assert c == a + ['/'] + b;
      SplitAt(a, b, '/');
      SplitFree(b, '/');
      ValidJoined(a, b);
      if a == "" {
        assert "" in Split(a, '/');
      } else {
        ValidIff(a);
      }
    }
  }

  lemma ValidComponent(b: string)
    requires SlashFree(b) && b != ""
    ensures IsValidCategoryName(b) <==> '\\' !in b
  {
    assert IsValidCategoryName(b) ==> forall k :: 0 <= k < |b| ==> b[k] != '\\';
  }

  lemma ValidJoined(a: string, b: string)
    requires SlashFree(b)
    ensures IsValidCategoryName(a + ['/'] + b) <==>
            a != "" && IsValidCategoryName(a) && b != "" && '\\' !in b
  {
    var c := a + ['/'] + b;
    assert forall k :: 0 <= k < |c| ==> c[k] == if k < |a| then a[k] else if k == |a| then '/' else b[k - |a| - 1];
    if IsValidCategoryName(c) {
      assert c[|a|] == '/';
      assert forall k :: 0 <= k < |b| ==> b[k] == c[|a| + 1 + k];
      assert forall k :: 0 <= k < |a| ==> a[k] == c[k];
      assert a != "" && c[|a| - 1] != '/';
    }
    if a != "" && IsValidCategoryName(a) && b != "" && '\\' !in b {
      assert c[0] == a[0] && c[|c| - 1] == b[|b| - 1];
      assert forall k :: 0 <= k < |b| ==> b[k] in b;
    }
  }

  /** The names that are expanded: the category and all of its text in front of a slash. */
  lemma {:induction false} ExpandMembers(c: string, name: string)
    ensures name in Expand(c) <==> name == c || name + "/" <= c
    decreases |c|
  {
    var i := LastSlash(c);
    if name + "/" <= c {
      SlashBehind(c, name);
    }
    if i >= 0 {
      ExpandMembers(c[..i], name);
      assert Expand(c) == Expand(c[..i]) + [c];
      if name + "/" <= c {
        if |name| == i {
          assert c[..i] == name;
        } else {
          assert c[..i][..|name| + 1] == c[..|name| + 1];
        }
      }
      if name + "/" <= c[..i] {
        assert c[..|name| + 1] == c[..i][..|name| + 1];
      }
      if name == c[..i] {
        assert c[..i + 1] == name + "/";
      }
    }
  }

  lemma SlashBehind(c: string, name: string)
    requires name + "/" <= c
    ensures |name| <= LastSlash(c)
  {
    assert c[|name|] == '/';
  }

  /** The k-th expanded prefix denotes the ancestor `k` steps from the top. */
  lemma {:induction false} ExpandStep(c: string, k: nat)
    requires k < |Expand(c)|
    ensures Expand(Expand(c)[k]) == Expand(c)[..k + 1]
    ensures PathOf(Expand(c)[k]) ==
            At(if k == 0 then Root else PathOf(Expand(c)[k - 1]), ShortName(Expand(c)[k]))
    decreases |c|
  {
    var i := LastSlash(c);
    var e := Expand(c);
    if i < 0 {
      assert e == [c];
    } else {
      assert e == Expand(c[..i]) + [c];
      if k < |e| - 1 {
        ExpandStep(c[..i], k);
        assert e[..k + 1] == Expand(c[..i])[..k + 1];
      } else {
        assert e[k - 1] == c[..i];
        assert e[..k + 1] == e;
      }
    }
  }

  lemma {:induction false} ExpandAbove(c: string, k: nat)
    requires k < |Expand(c)|
    ensures Above(PathOf(Expand(c)[k]), PathOf(c))
    decreases |c|
  {
    var i := LastSlash(c);
    if i < 0 || k == |Expand(c)| - 1 {
      assert Expand(c)[k] == c;
    } else {
      assert Expand(c)[k] == Expand(c[..i])[k];
      ExpandAbove(c[..i], k);
    }
  }

  lemma {:induction false} ValidExpanded(c: string, k: nat)
    requires c != "" && IsValidCategoryName(c) && k < |Expand(c)|
    ensures Expand(c)[k] != "" && IsValidCategoryName(Expand(c)[k])
    decreases |c|
  {
    var i := LastSlash(c);
    if i >= 0 && k < |Expand(c)| - 1 {
      ValidPrefix(c);
      ValidExpanded(c[..i], k);
    }
  }

  /** Every ancestor of a category is denoted by one of its expanded prefixes, and conversely. */
  lemma ExpandCoversAncestors(c: string, a: Path)
    ensures (exists k :: 0 <= k < |Expand(c)| && a == PathOf(Expand(c)[k])) <==> a.At? && Above(a, PathOf(c))
  {
    if exists k :: 0 <= k < |Expand(c)| && a == PathOf(Expand(c)[k]) {
      var k :| 0 <= k < |Expand(c)| && a == PathOf(Expand(c)[k]);
      ExpandAbove(c, k);
    }
    if a.At? && Above(a, PathOf(c)) {
      var k := PrefixOfAncestor(c, a);
    }
  }

  lemma {:induction false} PrefixOfAncestor(c: string, a: Path) returns (k: nat)
    requires a.At? && Above(a, PathOf(c))
    ensures k < |Expand(c)| && a == PathOf(Expand(c)[k])
    decreases |c|
  {
    if a == PathOf(c) {
      k := |Expand(c)| - 1;
    } else {
      assert Above(a, PathOf(c).up);
      var init := c[..LastSlash(c)];
      k := PrefixOfAncestor(init, a);
      assert Expand(c) == Expand(init) + [c];
    }
  }
}
