/** Sequences, sets and options that several modules share. */
module Collections {

  datatype Option<T> = None | Some(value: T)

  ghost predicate NoDup<T>(s: seq<T>) {
    forall i, j :: 0 <= i < j < |s| ==> s[i] != s[j]
  }

  /** QList::removeOne and QVector::removeOne: drop the first occurrence, keep the order of the rest. */
  function RemoveOne<T(==)>(s: seq<T>, x: T): seq<T> {
    if s == [] then []
    else if s[0] == x then s[1..]
    else [s[0]] + RemoveOne(s[1..], x)
  }

  lemma {:induction false} RemoveOneMembers<T>(s: seq<T>, x: T)
    requires NoDup(s)
    ensures NoDup(RemoveOne(s, x))
    ensures forall y :: y in RemoveOne(s, x) <==> y in s && y != x
  {
    if s != [] {
      assert s == [s[0]] + s[1..];
      if s[0] != x {
        RemoveOneMembers(s[1..], x);
        assert s[0] !in s[1..];
      }
    }
  }

  /** What stands around the first occurrence closes up, in its order. */
  lemma {:induction false} RemoveOneOrder<T>(a: seq<T>, x: T, b: seq<T>)
    requires x !in a
    ensures RemoveOne(a + [x] + b, x) == a + b
  {
    var s := a + [x] + b;
    if a == [] {
      assert s[1..] == b;
    } else {
      assert s[1..] == a[1..] + [x] + b;
      RemoveOneOrder(a[1..], x, b);
    }
  }

  lemma {:induction false} RemoveAbsent<T>(s: seq<T>, x: T)
    requires x !in s
    ensures RemoveOne(s, x) == s
  {
    if s != [] {
      RemoveAbsent(s[1..], x);
    }
  }

  lemma ClosedUp<T>(s: seq<T>, i: nat)
    requires i < |s|
    ensures s[..i] + [s[i]] + s[i + 1..] == s
  {
  }

  /** So the first occurrence goes, if there is one. */
  lemma RemoveOneIsAt<T>(s: seq<T>, x: T)
    ensures var i := IndexOf(s, x);
            && (x in s ==> i >= 0 && RemoveOne(s, x) == s[..i] + s[i + 1..])
            && (x !in s ==> RemoveOne(s, x) == s)
  {
    var i := IndexOf(s, x);
    if i >= 0 {
      RemoveOneOrder(s[..i], x, s[i + 1..]);
      ClosedUp(s, i);
    } else {
      RemoveAbsent(s, x);
    }
  }

  lemma SomeMember<T>(s: seq<T>)
    requires s != []
    ensures exists x :: x in s
  {
    assert s[0] in s;
  }

  /** QList::indexOf. */
  function IndexOf<T(==)>(s: seq<T>, x: T): (i: int)
    ensures -1 <= i < |s|
    ensures i >= 0 ==> s[i] == x && x !in s[..i]
    ensures i < 0 ==> x !in s
  {
    if s == [] then -1
    else if s[0] == x then 0
    else
      var i := IndexOf(s[1..], x);
      assert i >= 0 ==> s[..i + 1] == [s[0]] + s[1..][..i];
      if i < 0 then -1 else i + 1
  }

  lemma {:induction false} SubsetSize<T>(a: set<T>, b: set<T>)
    requires a <= b
    ensures |a| <= |b|
    decreases b
  {
    if |a| > 0 {
      var x :| x in a;
      SubsetSize(a - {x}, b - {x});
    }
  }

  /** Some element, as the next one of an iteration in arbitrary order. */
  method Pick<T>(s: set<T>) returns (x: T)
    requires |s| > 0
    ensures x in s
  {
    x :| x in s;
  }

  /** Two sets that differ in `x` at most. */
  lemma OneMoves(was: set<int>, now: set<int>, x: int)
    requires forall y :: y != x ==> (y in was <==> y in now)
    ensures |now| == |was| - (if x in was then 1 else 0) + (if x in now then 1 else 0)
  {
    var rest := was - {x};
    forall y
      ensures y in rest <==> y in now - {x}
    {
      if y != x {
        assert y in was <==> y in now;
      }
    }
    assert was == if x in was then rest + {x} else rest;
    assert now == if x in now then rest + {x} else rest;
  }
}
