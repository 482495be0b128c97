/** QString::split, QStringList::join and QString::trimmed. */
module Strings {

  function Join(parts: seq<string>, sep: char): string {
    if parts == [] then ""
    else if |parts| == 1 then parts[0]
    else parts[0] + [sep] + Join(parts[1..], sep)
  }

  /** QString::split, empty parts kept. */
  function Split(s: string, sep: char): (parts: seq<string>)
    ensures parts != []
  {
    if s == "" then [""]
    else
      var rest := Split(s[1..], sep);
      if s[0] == sep then [""] + rest
      else [[s[0]] + rest[0]] + rest[1..]
  }

  function NonEmpty(parts: seq<string>): seq<string> {
    if parts == [] then []
    else (if parts[0] == "" then [] else [parts[0]]) + NonEmpty(parts[1..])
  }

  /** QString::split with QString::SkipEmptyParts. */
  function SplitSkippingEmpty(s: string, sep: char): seq<string> {
    NonEmpty(Split(s, sep))
  }

  predicate Free(s: string, c: char) {
    c !in s
  }

  lemma {:induction false} JoinOfSplit(s: string, sep: char)
    ensures Join(Split(s, sep), sep) == s
  {
    if s != "" {
      JoinOfSplit(s[1..], sep);
      var rest := Split(s[1..], sep);
      if s[0] == sep {
        assert ([""] + rest)[1..] == rest;
      } else {
        var head := [s[0]] + rest[0];
        assert Split(s, sep) == [head] + rest[1..];
        assert ([head] + rest[1..])[1..] == rest[1..];
        assert s == [s[0]] + s[1..];
      }
    }
  }

  lemma {:induction false} SplitParts(s: string, sep: char)
    ensures forall p :: p in Split(s, sep) ==> Free(p, sep)
  {
    if s != "" {
      SplitParts(s[1..], sep);
      var rest := Split(s[1..], sep);
      assert rest[0] in rest;
      assert forall p :: p in rest[1..] ==> p in rest;
    }
  }

  lemma {:induction false} SplitFree(s: string, sep: char)
    requires Free(s, sep)
    ensures Split(s, sep) == [s]
  {
    if s != "" {
      assert s == [s[0]] + s[1..];
      SplitFree(s[1..], sep);
    }
  }

  /** Splitting at a known separator. */
  lemma {:induction false} SplitConcat(a: string, b: string, sep: char)
    requires Free(a, sep)
    ensures Split(a + [sep] + b, sep) == [a] + Split(b, sep)
  {
    var s := a + [sep] + b;
    if a == "" {
      assert s[1..] == b;
    } else {
      assert s[1..] == a[1..] + [sep] + b;
      assert a == [a[0]] + a[1..];
      SplitConcat(a[1..], b, sep);
    }
  }

  /** Splitting at any separator. */
  lemma {:induction false} SplitAt(a: string, b: string, sep: char)
    ensures Split(a + [sep] + b, sep) == Split(a, sep) + Split(b, sep)
  {
    var s := a + [sep] + b;
    if a == "" {
      assert s[1..] == b;
    } else {
      assert s[1..] == a[1..] + [sep] + b && s[0] == a[0];
      SplitAt(a[1..], b, sep);
      PutInFront(a[0], Split(a[1..], sep), Split(b, sep), sep);
    }
  }

  lemma PutInFront(c: char, p: seq<string>, q: seq<string>, sep: char)
    requires p != []
    ensures c == sep ==> [""] + (p + q) == ([""] + p) + q
    ensures c != sep ==> [[c] + (p + q)[0]] + (p + q)[1..] == ([[c] + p[0]] + p[1..]) + q
  {
    assert (p + q)[0] == p[0] && (p + q)[1..] == p[1..] + q;
  }

  /** A text without separators in front only lengthens the first part. */
  lemma {:induction false} SplitPrefixed(prefix: string, s: string, sep: char)
    requires Free(prefix, sep)
    ensures Split(prefix + s, sep) == [prefix + Split(s, sep)[0]] + Split(s, sep)[1..]
  {
    if prefix == "" {
      var parts := Split(s, sep);
      assert prefix + s == s && prefix + parts[0] == parts[0];
      assert parts == [parts[0]] + parts[1..];
    } else {
      assert (prefix + s)[1..] == prefix[1..] + s && prefix == [prefix[0]] + prefix[1..];
      SplitPrefixed(prefix[1..], s, sep);
      assert [prefix[0]] + (prefix[1..] + Split(s, sep)[0]) == prefix + Split(s, sep)[0];
    }
  }

  lemma {:induction false} SplitOfJoin(parts: seq<string>, sep: char)
    requires parts != [] && forall p :: p in parts ==> Free(p, sep)
    ensures Split(Join(parts, sep), sep) == parts
  {
    assert parts[0] in parts;
    if |parts| == 1 {
      SplitFree(parts[0], sep);
    } else {
      assert forall p :: p in parts[1..] ==> p in parts;
      SplitOfJoin(parts[1..], sep);
      SplitConcat(parts[0], Join(parts[1..], sep), sep);
    }
  }

  lemma {:induction false} JoinConcat(a: seq<string>, b: seq<string>, sep: char)
    requires a != [] && b != []
    ensures Join(a + b, sep) == Join(a, sep) + [sep] + Join(b, sep)
  {
    if |a| == 1 {
      assert (a + b)[1..] == b;
    } else {
      assert (a + b)[1..] == a[1..] + b;
      JoinConcat(a[1..], b, sep);
    }
  }

  lemma {:induction false} NonEmptyConcat(a: seq<string>, b: seq<string>)
    ensures NonEmpty(a + b) == NonEmpty(a) + NonEmpty(b)
  {
    if a == [] {
      assert a + b == b;
    } else {
      NonEmptyConcat(a[1..], b);
      assert (a + b)[1..] == a[1..] + b && (a + b)[0] == a[0];
      var head, p, q := if a[0] == "" then [] else [a[0]], NonEmpty(a[1..]), NonEmpty(b);
      assert head + (p + q) == (head + p) + q;
    }
  }

  lemma {:induction false} NonEmptyMembers(parts: seq<string>)
    ensures forall p :: p in NonEmpty(parts) <==> p in parts && p != ""
    ensures |NonEmpty(parts)| <= |parts|
    ensures NonEmpty(parts) == parts <==> "" !in parts
    ensures "" in parts ==> |NonEmpty(parts)| < |parts|
  {
    if parts != [] {
      NonEmptyMembers(parts[1..]);
      assert parts == [parts[0]] + parts[1..];
    }
  }

  // ----- QChar::isSpace and QString::trimmed -------------------------------------------

  predicate IsSpace(c: char) {
    || c == ' ' || '\t' <= c <= '\r' || c == '\U{85}' || c == '\U{A0}' || c == '\U{1680}'
    || '\U{2000}' <= c <= '\U{200A}' || c == '\U{2028}' || c == '\U{2029}' || c == '\U{202F}'
    || c == '\U{205F}' || c == '\U{3000}'
  }

  function TrimEnd(s: string): (r: string)
    ensures r <= s
    ensures r == "" || !IsSpace(r[|r| - 1])
  {
    if s == "" then "" else if IsSpace(s[|s| - 1]) then TrimEnd(s[..|s| - 1]) else s
  }

  function TrimStart(s: string): (r: string)
    ensures |r| <= |s| && r == s[|s| - |r|..]
    ensures r == "" || !IsSpace(r[0])
  {
    if s == "" then "" else if IsSpace(s[0]) then TrimStart(s[1..]) else s
  }

  function Trimmed(s: string): string {
    TrimStart(TrimEnd(s))
  }

  predicate NoTrailingSpace(s: string) {
    s == "" || !IsSpace(s[|s| - 1])
  }

  /** What trimming cuts off at both ends is spaces, and what it leaves has none at its ends. */
  lemma TrimmedIs(s: string) returns (front: string, back: string)
    ensures s == front + Trimmed(s) + back
    ensures forall c :: c in front || c in back ==> IsSpace(c)
    ensures var t := Trimmed(s);
            t != "" ==> !IsSpace(t[0]) && !IsSpace(t[|t| - 1])
  {
    back := TrimEndIs(s);
    front := TrimStartIs(TrimEnd(s));
    var t := Trimmed(s);
    assert t != "" ==> t[|t| - 1] == TrimEnd(s)[|TrimEnd(s)| - 1];
  }

  lemma {:induction false} TrimEndIs(s: string) returns (back: string)
    ensures s == TrimEnd(s) + back && forall c :: c in back ==> IsSpace(c)
  {
    back := "";
    if s != "" && IsSpace(s[|s| - 1]) {
      var cut := TrimEndIs(s[..|s| - 1]);
      back := cut + [s[|s| - 1]];
    }
  }

  lemma {:induction false} TrimStartIs(s: string) returns (front: string)
    ensures s == front + TrimStart(s) && forall c :: c in front ==> IsSpace(c)
  {
    front := "";
    if s != "" && IsSpace(s[0]) {
      var cut := TrimStartIs(s[1..]);
      front := [s[0]] + cut;
    }
  }

  /** A text survives trimming exactly when neither end is a space. */
  lemma TrimmedFixed(s: string)
    ensures Trimmed(s) == s <==> s == "" || (!IsSpace(s[0]) && !IsSpace(s[|s| - 1]))
    ensures Trimmed(Trimmed(s)) == Trimmed(s)
    ensures NoTrailingSpace(Trimmed(s))
    ensures forall c :: c in Trimmed(s) ==> c in s
  {
    var t := TrimEnd(s);
    var r := TrimStart(t);
    assert r == t[|t| - |r|..];
    assert forall c :: c in t ==> c in s;
  }

  /** Trimming stops at a text that has no space at its ends. */
  lemma TrimmedStarts(prefix: string, s: string)
    requires prefix != "" && !IsSpace(prefix[0]) && !IsSpace(prefix[|prefix| - 1])
    ensures prefix <= Trimmed(prefix + s)
  {
    TrimEndStarts(prefix, s);
    assert TrimEnd(prefix + s)[0] == prefix[0];
  }

  lemma {:induction false} TrimEndStarts(prefix: string, s: string)
    requires prefix != "" && !IsSpace(prefix[|prefix| - 1])
    ensures prefix <= TrimEnd(prefix + s)
    decreases |s|
  {
    var t := prefix + s;
    if s == "" {
      assert t == prefix && TrimEnd(t) == t;
    } else if IsSpace(s[|s| - 1]) {
      assert t[|t| - 1] == s[|s| - 1] && t[..|t| - 1] == prefix + s[..|s| - 1];
      TrimEndStarts(prefix, s[..|s| - 1]);
    } else {
      assert t[|t| - 1] == s[|s| - 1] && TrimEnd(t) == t;
    }
  }
}
