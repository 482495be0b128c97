/** The greedy line wrapper of src/app/cmdoptions.cpp. */
module WrapText {
  import opened Strings

  const USAGE_TEXT_COLUMN := 31
  const WRAP_AT_COLUMN := 80

  /** QString(n, ' '). */
  function Spaces(n: int): (s: string)
    ensures |s| == if n > 0 then n else 0
    ensures forall k :: 0 <= k < |s| ==> s[k] == ' '
  {
    if n <= 0 then "" else seq(n, _ => ' ')
  }

  function Flatten<T>(groups: seq<seq<T>>): seq<T> {
    if groups == [] then [] else groups[0] + Flatten(groups[1..])
  }

  lemma {:induction false} FlattenConcat<T>(a: seq<seq<T>>, b: seq<seq<T>>)
    ensures Flatten(a + b) == Flatten(a) + Flatten(b)
  {
    if a == [] {
      assert a + b == b;
    } else {
      FlattenConcat(a[1..], b);
      assert (a + b)[1..] == a[1..] + b && (a + b)[0] == a[0];
      var p, q := Flatten(a[1..]), Flatten(b);
      assert a[0] + (p + q) == (a[0] + p) + q;
    }
  }

  /** The line that shows the i-th group of words. */
  function LineOf(groups: seq<seq<string>>, i: nat, indentation: int): string
    requires i < |groups|
  {
    (if i == 0 then "" else Spaces(indentation)) + Join(groups[i], ' ')
  }

  /** What the i-th line's length must stay below. */
  function Limit(i: nat, indentation: int, wrapAt: int): int {
    if i == 0 then wrapAt - indentation else wrapAt
  }

  /** `groups` cuts the words into lines: none lost, none empty, and only a single word may overrun. */
  ghost predicate IsWrapping(words: seq<string>, groups: seq<seq<string>>, indentation: int, wrapAt: int) {
    && Flatten(groups) == words
    && (forall i :: 0 <= i < |groups| ==> groups[i] != [])
    && (forall i :: 0 <= i < |groups| && |groups[i]| >= 2 ==>
          |LineOf(groups, i, indentation)| < Limit(i, indentation, wrapAt))
  }

  /** A line ends only where the next word would not have fitted. */
  ghost predicate IsGreedy(groups: seq<seq<string>>, indentation: int, wrapAt: int) {
    forall i :: 0 <= i < |groups| - 1 && groups[i + 1] != [] ==>
      |LineOf(groups, i, indentation)| + |groups[i + 1][0]| + 1 >= Limit(i, indentation, wrapAt)
  }

  /** The words and lines wrapped so far. */
  ghost predicate Wrapped(words: seq<string>, lines: seq<string>, groups: seq<seq<string>>, indentation: int,
                          wrapAt: int) {
    && |lines| == |groups| > 0
    && (forall i :: 0 <= i < |lines| ==> lines[i] == LineOf(groups, i, indentation))
    && IsWrapping(words, groups, indentation, wrapAt)
    && IsGreedy(groups, indentation, wrapAt)
  }

  /** lines.last().append(' ' + word), when it still fits. */
  lemma LastExtended(words: seq<string>, lines: seq<string>, groups: seq<seq<string>>, word: string,
                     lines': seq<string>, groups': seq<seq<string>>, indentation: int, wrapAt: int)
    requires Wrapped(words, lines, groups, indentation, wrapAt)
    requires |lines[|lines| - 1]| + |word| + 1 < Limit(|lines| - 1, indentation, wrapAt)
    requires lines' == lines[|lines| - 1 := lines[|lines| - 1] + " " + word]
    requires groups' == groups[|groups| - 1 := groups[|groups| - 1] + [word]]
    ensures Wrapped(words + [word], lines', groups', indentation, wrapAt)
  {
    var last := |lines| - 1;
    var g := groups[last];
    assert g != [];
    assert (g + [word])[0] == g[0] && groups'[last] == g + [word];
    LastFlattened(groups, word);
    LastLine(groups, word, indentation);
    OthersKept(groups, groups', last, indentation);
    ExtendedFits(lines, groups, lines', groups', indentation, wrapAt);
    ExtendedGreedy(groups, groups', indentation, wrapAt);
  }

  lemma ExtendedFits(lines: seq<string>, groups: seq<seq<string>>, lines': seq<string>, groups': seq<seq<string>>,
                     indentation: int, wrapAt: int)
    requires |lines| == |groups| == |lines'| == |groups'| > 0
    requires forall i :: 0 <= i < |groups| ==> groups[i] != [] && lines[i] == LineOf(groups, i, indentation)
    requires forall i :: 0 <= i < |groups| && |groups[i]| >= 2 ==> |lines[i]| < Limit(i, indentation, wrapAt)
    requires forall i :: 0 <= i < |groups| - 1 ==> groups'[i] == groups[i] && lines'[i] == lines[i]
    requires forall i :: 0 <= i < |groups| - 1 ==> LineOf(groups', i, indentation) == LineOf(groups, i, indentation)
    requires var last := |groups| - 1;
             && groups'[last] != [] && lines'[last] == LineOf(groups', last, indentation)
             && |lines'[last]| < Limit(last, indentation, wrapAt)
    ensures forall i :: 0 <= i < |groups'| ==> groups'[i] != [] && lines'[i] == LineOf(groups', i, indentation)
    ensures forall i :: 0 <= i < |groups'| && |groups'[i]| >= 2 ==>
              |LineOf(groups', i, indentation)| < Limit(i, indentation, wrapAt)
  {
    forall i | 0 <= i < |groups'|
      ensures groups'[i] != [] && lines'[i] == LineOf(groups', i, indentation)
      ensures |groups'[i]| >= 2 ==> |LineOf(groups', i, indentation)| < Limit(i, indentation, wrapAt)
    {
      if i < |groups| - 1 {
        assert lines[i] == LineOf(groups, i, indentation);
      }
    }
  }

  lemma ExtendedGreedy(groups: seq<seq<string>>, groups': seq<seq<string>>, indentation: int, wrapAt: int)
    requires |groups'| == |groups| && IsGreedy(groups, indentation, wrapAt)
    requires forall i :: 0 <= i < |groups| ==> groups[i] != [] && groups'[i] != [] && groups'[i][0] == groups[i][0]
    requires forall i :: 0 <= i < |groups| - 1 ==> LineOf(groups', i, indentation) == LineOf(groups, i, indentation)
    ensures IsGreedy(groups', indentation, wrapAt)
  {
  }

  lemma LastLine(groups: seq<seq<string>>, word: string, indentation: int)
    requires groups != [] && groups[|groups| - 1] != []
    ensures var last := |groups| - 1;
            LineOf(groups[last := groups[last] + [word]], last, indentation) ==
            LineOf(groups, last, indentation) + " " + word
  {
    JoinConcat(groups[|groups| - 1], [word], ' ');
  }

  lemma OthersKept(groups: seq<seq<string>>, groups': seq<seq<string>>, last: nat, indentation: int)
    requires |groups'| == |groups| && forall i :: 0 <= i < |groups| && i != last ==> groups'[i] == groups[i]
    ensures forall i :: 0 <= i < |groups| && i != last ==>
              LineOf(groups', i, indentation) == LineOf(groups, i, indentation)
  {
  }

  lemma LastFlattened(groups: seq<seq<string>>, word: string)
    requires groups != []
    ensures var last := |groups| - 1;
            Flatten(groups[last := groups[last] + [word]]) == Flatten(groups) + [word]
  {
    var last := |groups| - 1;
    var extended := groups[last] + [word];
    assert groups == groups[..last] + [groups[last]];
    assert groups[last := extended] == groups[..last] + [extended];
    FlattenConcat(groups[..last], [groups[last]]);
    FlattenConcat(groups[..last], [extended]);
    assert Flatten([groups[last]]) == groups[last] && Flatten([extended]) == extended;
  }

  /** A new line, when the word would not have fitted. */
  lemma LineAdded(words: seq<string>, lines: seq<string>, groups: seq<seq<string>>, word: string,
                  indentation: int, wrapAt: int)
    requires Wrapped(words, lines, groups, indentation, wrapAt)
    requires |lines[|lines| - 1]| + |word| + 1 >= Limit(|lines| - 1, indentation, wrapAt)
    ensures Wrapped(words + [word], lines + [Spaces(indentation) + word], groups + [[word]], indentation, wrapAt)
  {
    var groups' := groups + [[word]];
    FlattenConcat(groups, [[word]]);
    assert Flatten([[word]]) == [word];
    assert forall i :: 0 <= i < |groups| ==> LineOf(groups', i, indentation) == LineOf(groups, i, indentation);
  }

  lemma FirstLine(word: string, indentation: int, wrapAt: int)
    ensures Wrapped([word], [word], [[word]], indentation, wrapAt)
  {
    assert Flatten([[word]]) == [word];
  }

  /** wrapText; `groups` tells which words went on which line. */
  method Wrap(text: string, initialIndentation: int := USAGE_TEXT_COLUMN, wrapAtColumn: int := WRAP_AT_COLUMN)
    returns (wrapped: string, lines: seq<string>, ghost groups: seq<seq<string>>)
    ensures wrapped == Join(lines, '\n')
    ensures Wrapped(Split(text, ' '), lines, groups, initialIndentation, wrapAtColumn)
    ensures |lines| == |groups| && Flatten(groups) == Split(text, ' ')
    ensures forall i :: 0 <= i < |lines| ==>
              && groups[i] != []
              && lines[i] == (if i == 0 then "" else Spaces(initialIndentation)) + Join(groups[i], ' ')
              && (|groups[i]| >= 2 ==> |lines[i]| < wrapAtColumn - if i == 0 then initialIndentation else 0)
    ensures forall i :: 0 <= i < |lines| - 1 ==>
              |lines[i]| + |groups[i + 1][0]| + 1 >= wrapAtColumn - if i == 0 then initialIndentation else 0
    ensures Join(Stripped(lines, initialIndentation), ' ') == text
  {
    var words := Split(text, ' ');
    lines := [words[0]];
    groups := [[words[0]]];
    var currentLineMaxLength := wrapAtColumn - initialIndentation;
    FirstLine(words[0], initialIndentation, wrapAtColumn);
    assert words[..1] == [words[0]];
    for n := 1 to |words|
      invariant Wrapped(words[..n], lines, groups, initialIndentation, wrapAtColumn)
      invariant currentLineMaxLength == Limit(|lines| - 1, initialIndentation, wrapAtColumn)
    {
      var word := words[n];
      var last := |lines| - 1;
      assert words[..n + 1] == words[..n] + [word];
      if |lines[last]| + |word| + 1 < currentLineMaxLength {
        ghost var lines0, groups0 := lines, groups;
        lines := lines[last := lines[last] + " " + word];
        groups := groups[last := groups[last] + [word]];
        LastExtended(words[..n], lines0, groups0, word, lines, groups, initialIndentation, wrapAtColumn);
      } else {
        LineAdded(words[..n], lines, groups, word, initialIndentation, wrapAtColumn);
        lines := lines + [Spaces(initialIndentation) + word];
        groups := groups + [[word]];
        currentLineMaxLength := wrapAtColumn;
      }
    }
    assert words[..|words|] == words;
    TextRestored(text, lines, groups, initialIndentation, wrapAtColumn);
    wrapped := Join(lines, '\n');
  }

  /** An option's description, which the usage text prints in the columns from 31 to 80. */
  method WrapDescription(text: string) returns (wrapped: string, lines: seq<string>, ghost groups: seq<seq<string>>)
    ensures wrapped == Join(lines, '\n') && |lines| == |groups| && Flatten(groups) == Split(text, ' ')
    ensures forall i :: 0 <= i < |lines| && |groups[i]| >= 2 ==> |lines[i]| < if i == 0 then 49 else 80
    ensures forall i, k :: 0 < i < |lines| && 0 <= k < 31 ==> k < |lines[i]| && lines[i][k] == ' '
  {
    wrapped, lines, groups := Wrap(text);
  }

  // ----- nothing is lost -----------------------------------------------------------------

  /** The texts of the lines: the indentation the wrapper inserted is stripped again. */
  function Stripped(lines: seq<string>, indentation: int): (r: seq<string>)
    ensures |r| == |lines|
  {
    seq(|lines|, i requires 0 <= i < |lines| =>
      if i == 0 || |lines[i]| < |Spaces(indentation)| then lines[i] else lines[i][|Spaces(indentation)|..])
  }

  /** Stripping the inserted indentation and rejoining with spaces gives the original text back. */
  lemma TextRestored(text: string, lines: seq<string>, groups: seq<seq<string>>, indentation: int, wrapAt: int)
    requires Wrapped(Split(text, ' '), lines, groups, indentation, wrapAt)
    ensures Join(Stripped(lines, indentation), ' ') == text
  {
    var texts := Stripped(lines, indentation);
    forall i | 0 <= i < |lines|
      ensures texts[i] == Join(groups[i], ' ')
    {
      assert lines[i] == LineOf(groups, i, indentation);
    }
    Rejoined(texts, groups);
    JoinOfSplit(text, ' ');
  }

  lemma {:induction false} Rejoined(texts: seq<string>, groups: seq<seq<string>>)
    requires |texts| == |groups| > 0
    requires forall i :: 0 <= i < |groups| ==> groups[i] != [] && texts[i] == Join(groups[i], ' ')
    ensures Join(texts, ' ') == Join(Flatten(groups), ' ')
    decreases |groups|
  {
    if |groups| > 1 {
      Rejoined(texts[1..], groups[1..]);
      assert groups[1] != [] && Flatten(groups[1..]) != [];
      JoinConcat(groups[0], Flatten(groups[1..]), ' ');
    } else {
      assert Flatten(groups) == groups[0];
    }
  }

  // ----- greedy wrapping uses the fewest lines ---------------------------------------------

  /** The length of a line's text, which with a non-negative indentation has one limit on every line. */
  function TextLength(group: seq<string>): nat {
    |Join(group, ' ')|
  }

  ghost predicate Fitting(groups: seq<seq<string>>, limit: int) {
    forall i :: 0 <= i < |groups| ==> groups[i] != [] && (|groups[i]| >= 2 ==> TextLength(groups[i]) < limit)
  }

  ghost predicate Eager(groups: seq<seq<string>>, limit: int) {
    forall i, j :: 0 <= i < j < |groups| && j == i + 1 ==>
      groups[j] != [] && TextLength(groups[i]) + |groups[j][0]| + 1 >= limit
  }

  /** Any stretch of words is at most as long as the words around it. */
  lemma StretchLength(before: seq<string>, stretch: seq<string>, after: seq<string>)
    requires stretch != []
    ensures TextLength(stretch) <= TextLength(before + stretch + after)
  {
    if before != [] {
      JoinConcat(before, stretch, ' ');
    } else {
      assert before + stretch == stretch;
    }
    if after != [] {
      JoinConcat(before + stretch, after, ' ');
    } else {
      assert before + stretch + after == before + stretch;
    }
  }

  /** Two ways to cut one sequence: the shorter head is a prefix of the longer. */
  lemma TwoCuts<T>(a: seq<T>, b: seq<T>, c: seq<T>, d: seq<T>)
    requires a + b == c + d && |a| <= |c|
    ensures c[..|a|] == a && b == c[|a|..] + d
  {
    assert (a + b)[..|a|] == a && (a + b)[|a|..] == b;
    assert (c + d)[..|a|] == c[..|a|] && (c + d)[|a|..] == c[|a|..] + d;
  }

  /** Greedy stays ahead: its first line, starting `|skipped|` words later, ends no earlier than the
      other wrapping's first line. */
  lemma FirstLineAhead(skipped: seq<string>, greedy: seq<seq<string>>, other: seq<seq<string>>, limit: int)
    requires Fitting(greedy, limit) && Eager(greedy, limit) && Fitting(other, limit)
    requires greedy != [] && other != [] && Flatten(other) == skipped + Flatten(greedy)
    ensures |other[0]| <= |skipped| + |greedy[0]|
  {
    if |other[0]| > |skipped| + |greedy[0]| {
      var rest := Flatten(greedy[1..]);
      Overreach(skipped, greedy[0], rest, other[0], Flatten(other[1..]));
      assert greedy[1..] != [] && greedy[1..][0] == greedy[1] && greedy[1] != [];
      assert rest[0] == greedy[1][0];
      TooLong(skipped, greedy[0], rest[0], other[0][|skipped| + |greedy[0]| + 1..], limit);
    }
  }

  /** A head that reaches past `a + b` has the next element in it too. */
  lemma Overreach<T>(a: seq<T>, b: seq<T>, rest: seq<T>, head: seq<T>, tail: seq<T>)
    requires head + tail == a + (b + rest) && |head| > |a| + |b|
    ensures rest != [] && head == a + (b + [rest[0]]) + head[|a| + |b| + 1..]
  {
    var n := |a| + |b|;
    assert (a + b) + rest == head + tail;
    TwoCuts(a + b, rest, head, tail);
    assert head == (a + b) + head[n..] && rest == head[n..] + tail;
    assert head[n..] == [rest[0]] + head[n + 1..];
  }

  lemma TooLong(before: seq<string>, line: seq<string>, next: string, after: seq<string>, limit: int)
    requires line != [] && TextLength(line) + |next| + 1 >= limit
    ensures TextLength(before + (line + [next]) + after) >= limit
  {
    JoinConcat(line, [next], ' ');
    StretchLength(before, line + [next], after);
  }

  lemma {:induction false} GreedyIsMinimal(skipped: seq<string>, greedy: seq<seq<string>>, other: seq<seq<string>>,
                                           limit: int)
    requires Fitting(greedy, limit) && Eager(greedy, limit) && Fitting(other, limit)
    requires Flatten(other) == skipped + Flatten(greedy)
    ensures |greedy| <= |other|
    decreases |greedy|
  {
    if greedy != [] {
      assert greedy[0] != [];
      assert other != [];
      FirstLineAhead(skipped, greedy, other, limit);
      var words := skipped + greedy[0];
      assert skipped + (greedy[0] + Flatten(greedy[1..])) == words + Flatten(greedy[1..]);
      TwoCuts(other[0], Flatten(other[1..]), words, Flatten(greedy[1..]));
      var skipped' := words[|other[0]|..];
      assert Flatten(other[1..]) == skipped' + Flatten(greedy[1..]);
      GreedyIsMinimal(skipped', greedy[1..], other[1..], limit);
    }
  }

  /** No wrapping of the same words within the same limits has fewer lines than wrapText's. */
  lemma FewestLines(words: seq<string>, greedy: seq<seq<string>>, other: seq<seq<string>>, indentation: int,
                    wrapAt: int)
    requires indentation >= 0
    requires IsWrapping(words, greedy, indentation, wrapAt) && IsGreedy(greedy, indentation, wrapAt)
    requires IsWrapping(words, other, indentation, wrapAt)
    ensures |greedy| <= |other|
  {
    var limit := wrapAt - indentation;
    SameLimit(words, greedy, indentation, wrapAt);
    SameLimit(words, other, indentation, wrapAt);
    forall i, j | 0 <= i < j < |greedy| && j == i + 1
      ensures greedy[j] != [] && TextLength(greedy[i]) + |greedy[j][0]| + 1 >= limit
    {
      assert greedy[j] != [];
      assert |LineOf(greedy, i, indentation)| == TextLength(greedy[i]) + if i == 0 then 0 else indentation;
    }
    assert Flatten(other) == [] + Flatten(greedy);
    GreedyIsMinimal([], greedy, other, limit);
  }

  lemma SameLimit(words: seq<string>, groups: seq<seq<string>>, indentation: int, wrapAt: int)
    requires indentation >= 0 && IsWrapping(words, groups, indentation, wrapAt)
    ensures Fitting(groups, wrapAt - indentation)
  {
    forall i | 0 <= i < |groups| && |groups[i]| >= 2
      ensures TextLength(groups[i]) < wrapAt - indentation
    {
      assert |LineOf(groups, i, indentation)| == TextLength(groups[i]) + if i == 0 then 0 else indentation;
    }
  }
}
