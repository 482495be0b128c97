/** The parent-linked category node of src/gui/categoryfiltermodel.cpp.
    A ghost map from paths to nodes (`Forest`) describes a whole tree on the heap. */
module CategoryTree {
  import opened Collections
  import opened CategoryPaths

  type Forest = map<Path, CategoryModelItem>

  /** The sum of a finite family of counts, in whatever order it is taken. */
  ghost function SumOf(m: map<Path, int>): int
    decreases m.Keys
  {
    if m == map[] then 0
    else var k :| k in m; m[k] + SumOf(m - {k})
  }

  lemma {:induction false} SumOfTake(m: map<Path, int>, k: Path)
    requires k in m
    ensures SumOf(m) == m[k] + SumOf(m - {k})
    decreases m.Keys
  {
    var j :| j in m && SumOf(m) == m[j] + SumOf(m - {j});
    if j != k {
      SumOfTake(m - {j}, k);
      SumOfTake(m - {k}, j);
      assert m - {j} - {k} == m - {k} - {j};
    }
  }

  ghost function BelowOrAt(c: map<Path, int>, p: Path): set<Path> {
    set q | q in c && Above(p, q)
  }

  /** What is left of a node's count once its children have been destroyed:
      each of them takes its own residue away from the parent. */
  ghost function Residue(c: map<Path, int>, p: Path): int
    requires p in c
    decreases BelowOrAt(c, p), 1
  {
    c[p] - SumOf(KidResidues(c, p))
  }

  ghost function KidResidues(c: map<Path, int>, p: Path): (m: map<Path, int>)
    requires p in c
    ensures forall q :: q in m <==> q in c && q.At? && q.up == p
    decreases BelowOrAt(c, p), 0
  {
    map q | q in c && q.At? && q.up == p :: (ChildShrinks(c, p, q); Residue(c, q))
  }

  lemma ChildShrinks(c: map<Path, int>, p: Path, q: Path)
    requires p in c && q.At? && q.up == p
    ensures BelowOrAt(c, q) < BelowOrAt(c, p)
  {
    UnderChild(p, q.uid);
    assert p in BelowOrAt(c, p) && p !in BelowOrAt(c, q);
  }

  /** The part of a family of siblings whose uids are not in `rest`. */
  ghost function Settled(m: map<Path, int>, rest: set<string>): map<Path, int> {
    map q | q in m && q.At? && q.uid !in rest :: m[q]
  }

  lemma SettleOne(m: map<Path, int>, rest: set<string>, q: Path)
    requires q in m && q.At? && q.uid in rest
    requires forall r :: r in m ==> r.At? && r.up == q.up
    ensures SumOf(Settled(m, rest - {q.uid})) == SumOf(Settled(m, rest)) + m[q]
  {
    SumOfTake(Settled(m, rest - {q.uid}), q);
    assert Settled(m, rest - {q.uid}) - {q} == Settled(m, rest);
  }

  /** A residue depends on the subtree only. */
  lemma {:induction false} ResidueLocal(c: map<Path, int>, d: map<Path, int>, p: Path)
    requires p in c
    requires forall q :: Above(p, q) ==> (q in c <==> q in d) && (q in c ==> c[q] == d[q])
    ensures p in d && Residue(c, p) == Residue(d, p)
    decreases BelowOrAt(c, p)
  {
    assert Above(p, p);
    forall q | q in c && q.At? && q.up == p
      ensures q in d && Residue(c, q) == Residue(d, q)
    {
      ChildShrinks(c, p, q);
      UnderChild(p, q.uid);
      ResidueLocal(c, d, q);
    }
    assert forall q: Path :: q.At? && q.up == p ==> Above(p, q);
    assert KidResidues(c, p) == KidResidues(d, p);
  }

  /** A subtree of zero counts leaves nothing behind. */
  lemma {:induction false} ResidueZero(c: map<Path, int>, p: Path)
    requires p in c
    requires forall q :: q in c && Above(p, q) ==> c[q] == 0
    ensures Residue(c, p) == 0
    decreases BelowOrAt(c, p)
  {
    assert Above(p, p);
    forall q | q in c && q.At? && q.up == p
      ensures Residue(c, q) == 0
    {
      ChildShrinks(c, p, q);
      UnderChild(p, q.uid);
      ResidueZero(c, q);
    }
    SumOfZero(KidResidues(c, p));
  }

  lemma {:induction false} SumOfZero(m: map<Path, int>)
    requires forall k :: k in m ==> m[k] == 0
    ensures SumOf(m) == 0
    decreases m.Keys
  {
    if m != map[] {
      var j :| j in m && SumOf(m) == m[j] + SumOf(m - {j});
      SumOfZero(m - {j});
    }
  }

  /** The node at `p` is linked to its parent and to its children, in both child indexes. */
  ghost predicate NodeLinked(t: Forest, p: Path)
    requires p in t
    reads t.Values`parent, t.Values`children, t.Values`childUids, t.Values`path
  {
    var n := t[p];
    && (p.Root? ==> n.parent == null)
    && (p.At? ==> p.up in t && n.parent == t[p.up] && p.uid in t[p.up].children)
    && NoDup(n.childUids)
    && (forall u :: u in n.childUids <==> u in n.children)
    && (forall u :: u in n.children ==> At(p, u) in t && n.children[u] == t[At(p, u)])
  }

  ghost predicate Linked(t: Forest)
    reads t.Values`parent, t.Values`children, t.Values`childUids, t.Values`path
  {
    && (forall p {:trigger t[p]} :: p in t ==> t[p].path == p)
    && (forall p {:trigger NodeLinked(t, p)} :: p in t ==> NodeLinked(t, p))
  }

  /** Every ancestor of a node is in the forest. */
  lemma {:induction false} AncestorsPresent(t: Forest, a: Path, p: Path)
    requires Linked(t) && p in t && Above(a, p)
    ensures a in t
    decreases p
  {
    assert NodeLinked(t, p);
    if a != p {
      AncestorsPresent(t, a, p.up);
    }
  }

  lemma NoChildrenNoUids(t: Forest, p: Path)
    requires Linked(t) && p in t && t[p].children == map[]
    ensures t[p].childUids == []
  {
    assert NodeLinked(t, p);
    if t[p].childUids != [] {
      SomeMember(t[p].childUids);
    }
  }

  /** Every strict descendant lies under a registered child. */
  lemma ChildrenCover(t: Forest, p: Path)
    requires Linked(t) && p in t
    ensures forall q :: q in t && Above(p, q) && q != p ==> ChildToward(p, q) in t[p].children
  {
    forall q | q in t && Above(p, q) && q != p
      ensures ChildToward(p, q) in t[p].children
    {
      var c := At(p, ChildToward(p, q));
      AncestorsPresent(t, c, q);
      assert NodeLinked(t, c);
    }
  }

  lemma {:induction false} RootAbove(p: Path)
    ensures Above(Root, p)
    decreases p
  {
    if p.At? { RootAbove(p.up); }
  }

  lemma RootAboveAll(t: Forest)
    ensures Prune(t, Root) == map[]
  {
    forall p | p in t ensures Above(Root, p) { RootAbove(p); }
  }

  /** The forest without the subtree at `p`. */
  ghost function Prune(t: Forest, p: Path): (r: Forest) {
    map q | q in t && !Above(p, q) :: t[q]
  }

  /** The forest without the strict descendants of `p`. */
  ghost function PruneBelow(t: Forest, p: Path): (r: Forest) {
    map q | q in t && (q == p || !Above(p, q)) :: t[q]
  }

  lemma PruneInTwo(t: Forest, p: Path)
    ensures Prune(t, p) == PruneBelow(t, p) - {p}
  {
  }

  ghost function SubtreePaths(t: Forest, p: Path): set<Path> {
    set q | q in t && Above(p, q)
  }

  /** The forest while the subtrees of the children in `rest` are still there. */
  ghost function Remaining(t: Forest, p: Path, rest: set<string>): (r: Forest) {
    map q | q in t && (Above(p, q) && q != p ==> ChildToward(p, q) in rest) :: t[q]
  }

  lemma RemainingStep(t: Forest, p: Path, rest: set<string>, u: string)
    requires u in rest
    ensures Prune(Remaining(t, p, rest), At(p, u)) == Remaining(t, p, rest - {u})
  {
    UnderChild(p, u);
  }

  lemma SubtreeShrinks(t: Forest, t': Forest, p: Path, u: string)
    requires p in t && t'.Keys <= t.Keys
    ensures SubtreePaths(t', At(p, u)) < SubtreePaths(t, p)
  {
    UnderChild(p, u);
    assert p in SubtreePaths(t, p) && p !in SubtreePaths(t', At(p, u));
  }

  ghost function SubtreeNodes(t: Forest, p: Path): set<object> {
    set q | q in t && Above(p, q) :: t[q]
  }

  function Up(p: Path): Path {
    if p.At? then p.up else p
  }

  ghost function ParentNode(t: Forest, p: Path): set<CategoryModelItem> {
    if p.At? && p.up in t then {t[p.up]} else {}
  }

  ghost function Counts(t: Forest): (c: map<Path, int>)
    reads t.Values`torrentsCount
    ensures c.Keys == t.Keys
  {
    map p | p in t :: t[p].torrentsCount
  }

  /** The counts once a node showing `n` has joined at `q`: only its parent's grows, by `n`. */
  ghost function Grown(c: map<Path, int>, q: Path, n: int): (r: map<Path, int>)
    requires q.At? && q.up in c
    ensures r.Keys == c.Keys + {q}
  {
    c[q.up := c[q.up] + n][q := n]
  }

  /** The counts after every ancestor of `p`, and `p` itself, moved by `d`. */
  ghost function Shifted(c: map<Path, int>, p: Path, d: int): (r: map<Path, int>)
    ensures r.Keys == c.Keys
  {
    map q | q in c :: c[q] + if Above(q, p) then d else 0
  }

  /** The counts once the subtree at `p` is gone: only the parent's changes, by the residue. */
  ghost function Without(c: map<Path, int>, p: Path): map<Path, int>
    requires p in c
  {
    map q | q in c && !Above(p, q) :: if q == Up(p) then c[q] - Residue(c, p) else c[q]
  }

  lemma CountsWithout(t: Forest, t': Forest, p: Path, c: map<Path, int>)
    requires p in t && p.At? && c.Keys == t.Keys && t' == Prune(t, p)
    requires forall q :: q in t' ==> t[q].torrentsCount == if q == p.up then c[q] - Residue(c, p) else c[q]
    ensures Counts(t') == Without(c, p)
  {
  }

  /** Every node at `p + u` is a registered child of the node at `p`, and conversely. */
  lemma SiblingsAreChildren(t: Forest, p: Path)
    requires Linked(t) && p in t
    ensures forall q :: q in t && q.At? && q.up == p ==> q.uid in t[p].children
    ensures forall u :: u in t[p].children ==> At(p, u) in t
  {
    assert NodeLinked(t, p);
    forall q | q in t && q.At? && q.up == p
      ensures q.uid in t[p].children
    {
      assert NodeLinked(t, q);
    }
  }

  lemma BeforeClear(t: Forest, p: Path)
    requires Linked(t) && p in t
    ensures Remaining(t, p, t[p].children.Keys) == t
    ensures SumOf(Settled(KidResidues(Counts(t), p), t[p].children.Keys)) == 0
  {
    ChildrenCover(t, p);
    SiblingsAreChildren(t, p);
    assert Settled(KidResidues(Counts(t), p), t[p].children.Keys) == map[];
  }

  lemma BeforeDestroy(t: Forest, t': Forest, p: Path, u: string, c: map<Path, int>)
    requires p in t && c.Keys == t.Keys && Linked(t') && p in t' && u in t'[p].children
    requires t' == Remaining(t, p, t'[p].children.Keys)
    requires forall q :: q in t' && q != p ==> t'[q].torrentsCount == c[q]
    ensures var child := t'[p].children[u];
            && At(p, u) in t' && At(p, u) in c && child == t'[At(p, u)] && child.path == At(p, u)
            && SubtreeNodes(t', At(p, u)) <= SubtreeNodes(t, p) && t'[p] == t[p]
            && SubtreePaths(t', At(p, u)) < SubtreePaths(t, p)
            && Residue(Counts(t'), At(p, u)) == Residue(c, At(p, u))
  {
    assert NodeLinked(t', p);
    UnderChild(p, u);
    SubtreeShrinks(t, t', p, u);
    ResidueLocal(Counts(t'), c, At(p, u));
  }

  lemma AfterClear(t: Forest, p: Path, m: map<Path, int>)
    requires forall q :: q in m ==> q.At?
    ensures Remaining(t, p, {}) == PruneBelow(t, p)
    ensures Settled(m, {}) == m
  {
  }

  /** The child index is the forest, one level down. */
  lemma ChildIsAt(t: Forest, p: Path, uid: string)
    requires Linked(t) && p in t
    ensures uid in t[p].children <==> At(p, uid) in t
    ensures uid in t[p].children ==> t[p].children[uid] == t[At(p, uid)]
  {
    assert NodeLinked(t, p);
    assert At(p, uid) in t ==> NodeLinked(t, At(p, uid));
  }

  /** Name and row convert back and forth for a node whose uid is its name. */
  lemma RowRoundTrip(t: Forest, n: CategoryModelItem)
    requires Linked(t) && n.In(t) && n.path.At? && n.name == n.path.uid
    ensures n.parent != null && 0 <= n.Pos() < n.parent.ChildCount()
    ensures n.parent.ChildAt(n.Pos()) == n
    ensures forall i :: 0 <= i < |n.parent.childUids| && n.parent.ChildAt(i) == n ==> i == n.Pos()
  {
    assert NodeLinked(t, n.path) && NodeLinked(t, n.path.up);
    var up := n.parent;
    forall i | 0 <= i < |up.childUids| && up.ChildAt(i) == n
      ensures up.childUids[i] == n.name
    {
      assert up.childUids[i] in up.childUids;
    }
    UidsMatchChildren(up.childUids, up.children.Keys);
  }

  /** A node is found at its own row if and only if its uid is its name. */
  lemma RowIffNamed(t: Forest, n: CategoryModelItem)
    requires Linked(t) && n.In(t) && n.path.At?
    ensures n.parent != null && (n.parent.ChildAt(n.Pos()) == n <==> n.name == n.path.uid)
  {
    assert NodeLinked(t, n.path) && NodeLinked(t, n.path.up);
    var up, i := n.parent, n.Pos();
    if n.name == n.path.uid {
      RowRoundTrip(t, n);
    } else if i >= 0 {
      assert up.childUids[i] == n.name && n.name in up.childUids;
      assert up.children[n.name] == t[At(up.path, n.name)];
      assert t[At(up.path, n.name)].path == At(up.path, n.name);
    }
  }

  /** A duplicate-free list of the members of a set has as many entries as the set. */
  lemma {:induction false} UidsMatchChildren(uids: seq<string>, keys: set<string>)
    requires NoDup(uids) && forall u :: u in uids <==> u in keys
    ensures |uids| == |keys|
    decreases uids
  {
    if uids == [] {
      assert keys == {};
    } else {
      assert uids[0] in uids;
      UidsMatchChildren(uids[1..], keys - {uids[0]});
    }
  }

  /** fullName() of a node with non-empty names above it is the joined path. */
  lemma {:induction false} FullNameIsPathName(t: Forest, n: CategoryModelItem)
    requires Linked(t) && n.In(t) && n.path.At?
    requires Root in t && t[Root].name == ""
    requires forall p :: p in t && p.At? && Above(p, n.path) ==> t[p].name == p.uid && p.uid != ""
    ensures n.FullName(t) == FullNameOf(n.path)
    decreases n.path
  {
    assert NodeLinked(t, n.path);
    if n.path.up.At? {
      assert Above(n.path.up, n.path) by { assert Above(n.path.up, n.path.up); }
      forall p | p in t && p.At? && Above(p, n.path.up)
        ensures t[p].name == p.uid && p.uid != ""
      {
        AboveTransitive(p, n.path.up, n.path);
      }
      FullNameIsPathName(t, n.parent);
    }
  }

  /** The node reached by following `k` parent links. */
  ghost function Ancestor(n: CategoryModelItem, k: nat): CategoryModelItem?
    reads *
  {
    if k == 0 then n else if n.parent == null then null else Ancestor(n.parent, k - 1)
  }

  /** Parent links are acyclic: from any node they end, after exactly as many steps as its depth, at the root. */
  lemma {:induction false} ParentLinksReachRoot(t: Forest, n: CategoryModelItem)
    requires Linked(t) && n.In(t)
    ensures Root in t && Ancestor(n, Depth(n.path)) == t[Root]
    ensures forall k :: 0 < k <= Depth(n.path) ==> Ancestor(n, k) != n
    decreases n.path
  {
    assert NodeLinked(t, n.path);
    if n.path.At? {
      ParentLinksReachRoot(t, n.parent);
      forall k | 0 < k <= Depth(n.path)
        ensures Ancestor(n, k) != n
      {
        AncestorDepth(t, n, k);
      }
    }
  }

  lemma {:induction false} AncestorDepth(t: Forest, n: CategoryModelItem, k: nat)
    requires Linked(t) && n.In(t) && k <= Depth(n.path)
    ensures var a := Ancestor(n, k); a != null && a.In(t) && Depth(a.path) == Depth(n.path) - k
    decreases k
  {
    assert NodeLinked(t, n.path);
    if k > 0 {
      AncestorDepth(t, n.parent, k - 1);
    }
  }

  class CategoryModelItem {
    var parent: CategoryModelItem?
    var name: string
    var torrentsCount: int
    var children: map<string, CategoryModelItem>
    var childUids: seq<string>
    ghost var path: Path

    ghost predicate In(t: Forest)
      reads this
    {
      path in t && t[path] == this
    }

    /** The parent-less form of the constructor; nodes are attached with AddChild. */
    constructor (name: string, torrentsCount: int)
      ensures parent == null && this.name == name && this.torrentsCount == torrentsCount
      ensures children == map[] && childUids == []
    {
      parent := null;
      this.name, this.torrentsCount := name, torrentsCount;
      children, childUids := map[], [];
      path := Root;
    }

    function ChildCount(): nat
      reads this
    {
      |children|
    }

    function Child(uid: string): CategoryModelItem?
      reads this
    {
      if uid in children then children[uid] else null
    }

    function ChildAt(index: int): CategoryModelItem?
      reads this
    {
      if index < 0 || index >= |childUids| then null else Child(childUids[index])
    }

    /** The row of this node under its parent: it looks for its name, not for its uid. */
    function Pos(): int
      reads this, parent
    {
      if parent == null then -1 else IndexOf(parent.childUids, name)
    }

    function FullName(ghost t: Forest): string
      requires Linked(t) && In(t)
      reads t.Values
      decreases path
    {
      assert NodeLinked(t, path);
      if parent == null || parent.name == "" then name
      else parent.FullName(t) + "/" + name
    }

    method IncreaseTorrentsCount(ghost t: Forest)
      requires Linked(t) && In(t)
      modifies t.Values`torrentsCount
      ensures Counts(t) == Shifted(old(Counts(t)), path, 1)
      decreases path
    {
      assert NodeLinked(t, path);
      torrentsCount := torrentsCount + 1;
      if parent != null {
        NotAboveParent(path);
        parent.IncreaseTorrentsCount(t);
      }
    }

    method DecreaseTorrentsCount(ghost t: Forest)
      requires Linked(t) && In(t)
      modifies t.Values`torrentsCount
      ensures Counts(t) == Shifted(old(Counts(t)), path, -1)
      decreases path
    {
      assert NodeLinked(t, path);
      torrentsCount := torrentsCount - 1;
      if parent != null {
        NotAboveParent(path);
        parent.DecreaseTorrentsCount(t);
      }
    }

    /** Attach a just-built item: only this node's count grows, by the item's count. */
    method AddChild(uid: string, item: CategoryModelItem, ghost t: Forest) returns (ghost t': Forest)
      requires Linked(t) && In(t) && item !in t.Values
      requires item.parent == null && item.children == map[] && item.childUids == []
      requires uid !in children
      modifies `children, `childUids, `torrentsCount, item`parent, item`path
      ensures t' == t[At(path, uid) := item] && At(path, uid) !in t
      ensures Linked(t') && item.path == At(path, uid)
      ensures children == old(children)[uid := item] && childUids == old(childUids) + [uid]
      ensures Counts(t') == Grown(old(Counts(t)), At(path, uid), item.torrentsCount)
    {
      t' := LinkChild(uid, item, t);
      torrentsCount := torrentsCount + item.torrentsCount;
    }

    /** The links of AddChild, in both child indexes and in the item. */
    method LinkChild(uid: string, item: CategoryModelItem, ghost t: Forest) returns (ghost t': Forest)
      requires Linked(t) && In(t) && item !in t.Values
      requires item.parent == null && item.children == map[] && item.childUids == []
      requires uid !in children
      modifies `children, `childUids, item`parent, item`path
      ensures t' == t[At(path, uid) := item] && At(path, uid) !in t
      ensures Linked(t') && item.path == At(path, uid)
      ensures children == old(children)[uid := item] && childUids == old(childUids) + [uid]
    {
      ChildIsAt(t, path, uid);
      assert NodeLinked(t, path);
      item.parent := this;
      item.path := At(path, uid);
      children := children[uid := item];
      childUids := childUids + [uid];
      t' := t[At(path, uid) := item];
      forall p | p in t'
        ensures NodeLinked(t', p)
      {
        if p != At(path, uid) {
          assert old(NodeLinked(t, p));
        }
      }
    }

    /** The constructor that is given a parent: build the item, then attach it under its name. */
    method NewChild(name: string, count: int, ghost t: Forest)
      returns (item: CategoryModelItem, ghost t': Forest)
      requires Linked(t) && In(t) && name !in children
      modifies `children, `childUids, `torrentsCount
      ensures fresh(item) && item.path == At(path, name) && item.name == name && item.childUids == []
      ensures t' == t[At(path, name) := item] && At(path, name) !in t && Linked(t')
      ensures childUids == old(childUids) + [name]
      ensures Counts(t') == Grown(old(Counts(t)), At(path, name), count)
    {
      item := new CategoryModelItem(name, count);
      t' := AddChild(name, item, t);
    }

    /** qDeleteAll over a copy of the children, in an arbitrary order. */
    method Clear(ghost t: Forest) returns (ghost t': Forest)
      requires Linked(t) && In(t)
      modifies SubtreeNodes(t, path)
      ensures t' == PruneBelow(t, path) && Linked(t') && In(t')
      ensures path == old(path) && parent == old(parent) && name == old(name)
      ensures children == map[] && childUids == []
      ensures torrentsCount == Residue(old(Counts(t)), old(path))
      decreases SubtreePaths(t, path), 0
    {
      t' := t;
      var copy := children;
      ghost var c := Counts(t);
      ghost var m := KidResidues(c, path);
      BeforeClear(t, path);
      while copy != map[]
        invariant Linked(t') && In(t') && path == old(path) && parent == old(parent) && name == old(name)
        invariant children == copy
        invariant t' == Remaining(t, path, copy.Keys)
        invariant forall q :: q in t' && q != path ==> t[q].torrentsCount == c[q]
        invariant torrentsCount == c[path] - SumOf(Settled(m, copy.Keys))
        decreases copy.Keys
      {
        var uid :| uid in copy;
        BeforeDestroy(t, t', path, uid, c);
        t' := copy[uid].Destroy(t');
        SettleOne(m, copy.Keys, At(path, uid));
        RemainingStep(t, path, copy.Keys, uid);
        copy := copy - {uid};
      }
      assert copy.Keys == {};
      AfterClear(t, path, m);
      NoChildrenNoUids(t', path);
    }

    /** The destructor's second half: a childless node leaves its parent's count and both child indexes. */
    method LeaveParent(ghost t: Forest) returns (ghost t': Forest)
      requires Linked(t) && In(t) && path.At? && path.up in t && parent == t[path.up]
      requires children == map[]
      modifies parent`children, parent`childUids, parent`torrentsCount
      ensures t' == t - {path} && Linked(t')
      ensures parent.children == old(parent.children) - {path.uid}
      ensures var uids := old(parent.childUids);
              var i := IndexOf(uids, path.uid);
              i >= 0 && parent.childUids == uids[..i] + uids[i + 1..]
      ensures parent.torrentsCount == old(parent.torrentsCount) - torrentsCount
    {
      assert NodeLinked(t, path) && NodeLinked(t, path.up);
      parent.torrentsCount := parent.torrentsCount - torrentsCount;
      var uid :| uid in parent.children && parent.children[uid] == this;
      assert uid == path.uid;
      t' := Unlink(uid, t);
    }

    /** Out of both of the parent's child indexes. */
    method Unlink(uid: string, ghost t: Forest) returns (ghost t': Forest)
      requires Linked(t) && In(t) && path.At? && path.up in t && parent == t[path.up]
      requires children == map[] && uid == path.uid
      modifies parent`children, parent`childUids
      ensures t' == t - {path} && Linked(t')
      ensures parent.children == old(parent.children) - {path.uid}
      ensures var uids := old(parent.childUids);
              var i := IndexOf(uids, path.uid);
              i >= 0 && parent.childUids == uids[..i] + uids[i + 1..]
    {
      assert NodeLinked(t, path) && NodeLinked(t, path.up);
      NotAboveParent(path);
      RemoveOneMembers(parent.childUids, uid);
      RemoveOneIsAt(parent.childUids, uid);
      parent.children := parent.children - {uid};
      parent.childUids := RemoveOne(parent.childUids, uid);
      t' := t - {path};
      forall q | q in t'
        ensures NodeLinked(t', q)
      {
        assert old(NodeLinked(t, q));
      }
    }

    /** The destructor: clear, then leave the parent. */
    method Destroy(ghost t: Forest) returns (ghost t': Forest)
      requires Linked(t) && In(t)
      modifies SubtreeNodes(t, path), ParentNode(t, path)
      ensures t' == Prune(t, path) && Linked(t')
      ensures path == old(path)
      ensures path.At? ==> path.up in t
      ensures path.At? ==>
                var up := t[path.up];
                && up.children == old(up.children) - {path.uid}
                && (var uids := old(up.childUids);
                    var i := IndexOf(uids, path.uid);
                    i >= 0 && up.childUids == uids[..i] + uids[i + 1..])
                && up.torrentsCount == old(up.torrentsCount) - torrentsCount
                && up.name == old(up.name) && up.parent == old(up.parent) && up.path == old(up.path)
      ensures torrentsCount == Residue(old(Counts(t)), path)
      ensures forall q :: q in t' && q != Up(path) ==> unchanged(t[q])
      ensures path.At? ==> Counts(t') == Without(old(Counts(t)), path)
      decreases SubtreePaths(t, path), 1
    {
      assert NodeLinked(t, path);
      if path.At? {
        NotAboveParent(path);
      }
      ghost var c := Counts(t);
      ghost var t1 := Clear(t);
      PruneInTwo(t, path);
      t' := Prune(t, path);
      if parent != null {
        t' := LeaveParent(t1);
        CountsWithout(t, t', path, c);
      } else {
        RootAboveAll(t);
      }
    }
  }
}
