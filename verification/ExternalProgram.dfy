/** The placeholder substitution of Application::runExternalProgram (src/app/application.cpp):
    the command line is edited in place, from right to left. */
module ExternalProgram {

  /** The torrent's texts for the placeholders; they may hold any characters, '%' included. */
  type Texts = map<char, string>

  const SPECIFIERS: set<char> := {'C', 'D', 'F', 'G', 'I', 'L', 'N', 'R', 'T', 'Z'}

  /** Every specifier the switch knows has a text. */
  predicate Complete(texts: Texts) {
    texts.Keys == SPECIFIERS
  }

  /** QString::replace(i, n, text). */
  function Replace(s: string, i: nat, n: nat, text: string): string
    requires i + n <= |s|
  {
    s[..i] + text + s[i + n..]
  }

  /** A placeholder of the template starts at `i`. */
  predicate PlaceholderAt(t: string, i: int, texts: Texts) {
    0 <= i < |t| - 1 && t[i] == '%' && t[i + 1] in texts
  }

  /** The pure expander: each placeholder of the template becomes its text, every other character
      stays. It reads the template only, never an inserted text. */
  function Expand(t: string, texts: Texts): string
    decreases |t|
  {
    if t == [] then []
    else if PlaceholderAt(t, 0, texts) then texts[t[1]] + Expand(t[2..], texts)
    else [t[0]] + Expand(t[1..], texts)
  }

  /** A stretch of the template where no placeholder starts is left as it is. */
  lemma {:induction false} PlainStretch(t: string, lo: nat, hi: nat, texts: Texts)
    requires lo <= hi <= |t|
    requires forall j :: lo <= j < hi ==> !PlaceholderAt(t, j, texts)
    ensures Expand(t[lo..], texts) == t[lo..hi] + Expand(t[hi..], texts)
    decreases hi - lo
  {
    if lo < hi {
      PlainStretch(t, lo + 1, hi, texts);
      assert t[lo..][1..] == t[lo + 1..];
      assert t[lo..hi] == [t[lo]] + t[lo + 1..hi];
      assert !PlaceholderAt(t, lo, texts);
      assert PlaceholderAt(t[lo..], 0, texts) ==> PlaceholderAt(t, lo, texts);
    } else {
      assert t[lo..hi] == [];
    }
  }

  /** Replacing the placeholder at `i` expands the template from `i` on. */
  lemma ReplaceStep(t: string, i: nat, cut: nat, texts: Texts)
    requires i + 2 <= cut <= |t| && PlaceholderAt(t, i, texts)
    requires forall j :: i < j < cut ==> !PlaceholderAt(t, j, texts)
    ensures Replace(t[..cut] + Expand(t[cut..], texts), i, 2, texts[t[i + 1]]) == t[..i] + Expand(t[i..], texts)
  {
    PlainStretch(t, i + 2, cut, texts);
    var done, text := Expand(t[cut..], texts), texts[t[i + 1]];
    assert t[i..][2..] == t[i + 2..];
    assert Expand(t[i..], texts) == text + (t[i + 2..cut] + done);
    var program := t[..cut] + done;
    assert program[..i] == t[..i] && program[i + 2..] == t[i + 2..cut] + done;
    assert (t[..i] + text) + (t[i + 2..cut] + done) == t[..i] + (text + (t[i + 2..cut] + done));
  }

  /** What is a placeholder: a '%' and one of ten letters. */
  lemma PlaceholderIff(t: string, i: int, texts: Texts)
    requires Complete(texts)
    ensures PlaceholderAt(t, i, texts) <==>
            0 <= i < |t| - 1 && t[i] == '%' && t[i + 1] in {'N', 'L', 'G', 'F', 'R', 'D', 'C', 'Z', 'T', 'I'}
  {
  }

  /** And what becomes of the leftmost '%': its text is put in if it starts a placeholder, and it stays if
      not; a template without '%' stays as it is. */
  lemma ExpandLeftmost(a: string, c: char, b: string, texts: Texts)
    requires '%' !in a
    ensures Expand(a, texts) == a
    ensures Expand(a + "%", texts) == a + "%"
    ensures Expand(a + ("%" + [c] + b), texts) ==
            a + if c in texts then texts[c] + Expand(b, texts) else "%" + Expand([c] + b, texts)
  {
    Kept(a, "", texts);
    Kept(a, "%", texts);
    Kept(a, "%" + [c] + b, texts);
    assert a + "" == a;
    PercentFirst(c, b, texts);
    assert Expand("%", texts) == "%" + Expand("%"[1..], texts);
  }

  lemma {:induction false} Kept(a: string, s: string, texts: Texts)
    requires '%' !in a
    ensures Expand(a + s, texts) == a + Expand(s, texts)
  {
    if a == "" {
      assert a + s == s;
    } else {
      Kept(a[1..], s, texts);
      assert (a + s)[0] == a[0] && (a + s)[1..] == a[1..] + s;
      assert a == [a[0]] + a[1..];
    }
  }

  lemma PercentFirst(c: char, b: string, texts: Texts)
    ensures Expand("%" + [c] + b, texts) ==
            if c in texts then texts[c] + Expand(b, texts) else "%" + Expand([c] + b, texts)
  {
    var s := "%" + [c] + b;
    assert s[2..] == b && s[1..] == [c] + b && s[0] == '%' && s[1] == c;
  }

  /** The loop, with the same index arithmetic: right to left, one extra step left after every '%'.
      Right of `cut` the command line is final; left of it, it is still the template, and only the
      template is ever looked at. */
  method SubstitutePlaceholders(template: string, texts: Texts) returns (program: string)
    requires Complete(texts)
    ensures program == Expand(template, texts)
  {
    program := template;
    ghost var cut := |template|;
    var i := |program| - 2;
    while i >= 0
      invariant -2 <= i <= cut - 2 && cut <= |template|
      invariant program == template[..cut] + Expand(template[cut..], texts)
      invariant forall j :: i < j < cut ==> !PlaceholderAt(template, j, texts)
      decreases i
    {
      if program[i] != '%' {
        i := i - 1;
        continue;
      }
      var specifier := program[i + 1];
      assert template[i] == '%' && template[i + 1] == specifier;
      if specifier in texts {
        ReplaceStep(template, i, cut, texts);
        program := Replace(program, i, 2, texts[specifier]);
        cut := i;
      }
      i := i - 2;
    }
    PlainStretch(template, 0, cut, texts);
    assert template[0..] == template;
  }

  // ----- what the expansion is ------------------------------------------------------------

  /** What position `j` of the template contributes: a placeholder's '%' its text, its specifier
      nothing, any other character itself. */
  function Piece(t: string, j: nat, texts: Texts): string
    requires j < |t|
  {
    if PlaceholderAt(t, j, texts) then texts[t[j + 1]]
    else if PlaceholderAt(t, j - 1, texts) then []
    else [t[j]]
  }

  function Pieces(t: string, from: nat, texts: Texts): string
    requires from <= |t|
    decreases |t| - from
  {
    if from == |t| then [] else Piece(t, from, texts) + Pieces(t, from + 1, texts)
  }

  /** All placeholders are replaced at once: the expansion is the pieces of the template's positions. */
  lemma {:induction false} ExpandIsSimultaneous(t: string, from: nat, texts: Texts)
    requires Complete(texts) && from <= |t| && !PlaceholderAt(t, from - 1, texts)
    ensures Expand(t[from..], texts) == Pieces(t, from, texts)
    decreases |t| - from
  {
    if from < |t| {
      var s := t[from..];
      assert s[1..] == t[from + 1..];
      if PlaceholderAt(t, from, texts) {
        assert s[2..] == t[from + 2..];
        assert !PlaceholderAt(t, from + 1, texts);
        ExpandIsSimultaneous(t, from + 2, texts);
        assert Piece(t, from + 1, texts) == [];
      } else {
        ExpandIsSimultaneous(t, from + 1, texts);
      }
    }
  }

  /** The other reading of a template, as printf has it: scan left to right and consume '%' and the
      character after it together, known or not. */
  function ExpandPairs(t: string, texts: Texts): string
    decreases |t|
  {
    if t == [] then []
    else if |t| >= 2 && t[0] == '%' then
      (if t[1] in texts then texts[t[1]] else t[..2]) + ExpandPairs(t[2..], texts)
    else [t[0]] + ExpandPairs(t[1..], texts)
  }

  /** How many '%' stand directly before position `k`. */
  function PercentsBefore(t: string, k: nat): nat
    requires k <= |t|
  {
    if k > 0 && t[k - 1] == '%' then 1 + PercentsBefore(t, k - 1) else 0
  }

  /** A run of '%' of even, positive length is directly followed by the specifier at `k`. */
  predicate EvenRunBefore(t: string, k: int) {
    0 <= k < |t| && t[k] in SPECIFIERS && PercentsBefore(t, k) > 0 && PercentsBefore(t, k) % 2 == 0
  }

  /** Both readings of a '%' at `from`, where the pairs are in step with the runs. */
  lemma PercentStep(t: string, from: nat, texts: Texts)
    requires from + 1 < |t| && t[from] == '%'
    ensures ExpandPairs(t[from..], texts) ==
            (if t[from + 1] in texts then texts[t[from + 1]] else ['%', t[from + 1]])
            + ExpandPairs(t[from + 2..], texts)
    ensures Expand(t[from..], texts) ==
            if t[from + 1] in texts then texts[t[from + 1]] + Expand(t[from + 2..], texts)
            else ['%'] + Expand(t[from + 1..], texts)
  {
    var s := t[from..];
    assert s[1..] == t[from + 1..] && s[2..] == t[from + 2..] && s[..2] == ['%', t[from + 1]];
  }

  lemma OtherStep(t: string, from: nat, texts: Texts)
    requires from < |t| && (t[from] != '%' || from + 1 == |t|)
    ensures ExpandPairs(t[from..], texts) == [t[from]] + ExpandPairs(t[from + 1..], texts)
    ensures Expand(t[from..], texts) == [t[from]] + Expand(t[from + 1..], texts)
  {
    assert t[from..][1..] == t[from + 1..];
  }

  /** Past a '%' and another character the readings agree again, unless that is a '%' before a specifier. */
  lemma AgreePastPair(t: string, from: nat, texts: Texts)
    requires Complete(texts) && from + 1 < |t| && t[from] == '%'
    requires ExpandPairs(t[from + 2..], texts) == Expand(t[from + 2..], texts)
    requires t[from + 1] == '%' && from + 2 < |t| ==> t[from + 2] !in SPECIFIERS
    ensures ExpandPairs(t[from..], texts) == Expand(t[from..], texts)
  {
    PercentStep(t, from, texts);
    var c, rest := t[from + 1], Expand(t[from + 2..], texts);
    if c !in texts {
      if c == '%' && from + 2 < |t| {
        PercentStep(t, from + 1, texts);
      } else {
        OtherStep(t, from + 1, texts);
      }
      assert Expand(t[from + 1..], texts) == [c] + rest;
      Glued('%', c, rest);
    }
  }

  lemma Glued(a: char, b: char, rest: string)
    ensures [a, b] + rest == [a] + ([b] + rest)
  {
  }

  /** Without such a run the two readings agree. */
  lemma {:induction false} PairsAgreeFrom(t: string, from: nat, texts: Texts)
    requires Complete(texts) && from <= |t| && PercentsBefore(t, from) % 2 == 0
    requires forall k :: from < k < |t| ==> !EvenRunBefore(t, k)
    ensures ExpandPairs(t[from..], texts) == Expand(t[from..], texts)
    decreases |t| - from
  {
    if from + 1 < |t| && t[from] == '%' {
      PairsAgreeFrom(t, from + 2, texts);
      assert from + 2 < |t| ==> !EvenRunBefore(t, from + 2);
      AgreePastPair(t, from, texts);
    } else if from < |t| {
      OtherStep(t, from, texts);
      if from + 1 < |t| {
        PairsAgreeFrom(t, from + 1, texts);
      }
    }
  }

  function Blanks(): (texts: Texts)
    ensures Complete(texts)
  {
    map c | c in SPECIFIERS :: ""
  }

  /** How long the readings with empty texts are, past a '%' and another character. */
  lemma LengthsPastPair(t: string, from: nat)
    requires from + 1 < |t| && t[from] == '%'
    ensures var pairs, single := ExpandPairs(t[from..], Blanks()), Expand(t[from..], Blanks());
            var pairs2, single2 := ExpandPairs(t[from + 2..], Blanks()), Expand(t[from + 2..], Blanks());
            if t[from + 1] == '%' && from + 2 < |t| && t[from + 2] in SPECIFIERS then
              && |pairs| == 3 + |ExpandPairs(t[from + 3..], Blanks())|
              && |single| == 1 + |Expand(t[from + 3..], Blanks())|
            else |pairs| - |pairs2| == |single| - |single2|
  {
    var texts := Blanks();
    PercentStep(t, from, texts);
    if t[from + 1] == '%' && from + 2 < |t| {
      PercentStep(t, from + 1, texts);
      if t[from + 2] in texts {
        OtherStep(t, from + 2, texts);
      }
    } else if t[from + 1] !in texts {
      OtherStep(t, from + 1, texts);
    }
  }

  /** With empty texts, every such run makes the left-to-right reading longer. */
  lemma {:induction false} PairsLonger(t: string, from: nat)
    requires from <= |t| && PercentsBefore(t, from) % 2 == 0
    ensures |ExpandPairs(t[from..], Blanks())| >= |Expand(t[from..], Blanks())|
    ensures (exists k :: from < k < |t| && EvenRunBefore(t, k)) ==>
              |ExpandPairs(t[from..], Blanks())| > |Expand(t[from..], Blanks())|
    decreases |t| - from
  {
    if from + 1 < |t| && t[from] == '%' {
      LengthsPastPair(t, from);
      PairsLonger(t, from + 2);
      assert !EvenRunBefore(t, from + 1);
      if t[from + 1] == '%' && from + 2 < |t| && t[from + 2] in SPECIFIERS {
        PairsLonger(t, from + 3);
      } else {
        assert from + 2 < |t| ==> !EvenRunBefore(t, from + 2);
      }
    } else if from < |t| {
      OtherStep(t, from, Blanks());
      if from + 1 < |t| {
        PairsLonger(t, from + 1);
        assert !EvenRunBefore(t, from + 1);
      }
    }
  }

  /** The two readings agree, whatever the texts, if and only if no run of '%' of even, positive length
      is directly followed by a specifier. */
  lemma PairsAgreeIff(t: string)
    ensures (forall texts: Texts :: Complete(texts) ==> ExpandPairs(t, texts) == Expand(t, texts)) <==>
            forall k :: !EvenRunBefore(t, k)
  {
    assert t[0..] == t;
    if forall k :: !EvenRunBefore(t, k) {
      forall texts: Texts | Complete(texts)
        ensures ExpandPairs(t, texts) == Expand(t, texts)
      {
        PairsAgreeFrom(t, 0, texts);
      }
    } else {
      var k :| EvenRunBefore(t, k);
      PairsLonger(t, 0);
      assert k > 0 && ExpandPairs(t, Blanks()) != Expand(t, Blanks());
    }
  }

  /** In particular, without "%%" they agree. */
  lemma {:induction false} PairsAgree(t: string, texts: Texts)
    requires forall j :: 0 <= j < |t| - 1 && t[j] == '%' ==> t[j + 1] != '%'
    ensures ExpandPairs(t, texts) == Expand(t, texts)
    decreases |t|
  {
    if |t| >= 2 && t[0] == '%' {
      PairsAgree(t[2..], texts);
      if t[1] !in texts {
        var rest := t[1..];
        assert rest[1..] == t[2..] && rest[0] == t[1] != '%';
        assert Expand(rest, texts) == [t[1]] + Expand(t[2..], texts);
        assert Expand(t, texts) == [t[0]] + Expand(rest, texts);
        assert t[..2] + Expand(t[2..], texts) == [t[0]] + ([t[1]] + Expand(t[2..], texts));
      }
    } else if t != [] {
      PairsAgree(t[1..], texts);
    }
  }

  /** With "%%" they need not: "%%N" still has its name put in, although "%%%N" is read alike. */
  lemma PairsDiffer(texts: Texts)
    requires Complete(texts) && texts['N'] != "%N"
    ensures Expand("%%N", texts) == "%" + texts['N']
    ensures ExpandPairs("%%N", texts) == "%%N"
  {
    assert "%%N"[1..] == "%N" && "%%N"[2..] == "N" && "%N"[2..] == "";
    assert "%%N"[..2] == "%%";
    assert Expand("%N", texts) == texts['N'] + Expand("", texts);
    assert ExpandPairs("N", texts) == "N" + ExpandPairs("N"[1..], texts);
  }
}
