/** FileSystemPathValidator of src/gui/fspathedit_p.cpp: a path is tested component by component,
    strictly before the cursor and leniently from the cursor on. The file system is the function `fs`. */
module PathValidator {
  import opened Strings

  const SEPARATOR: char := '/'

  datatype FileInfo = FileInfo(exists_: bool, isDir: bool, isWritable: bool, isReadable: bool)

  datatype TestResult = OK | DoesNotExist | NotADir | NotAFile | CantRead | CantWrite

  datatype State = Invalid | Intermediate | Acceptable

  datatype Settings = Settings(
    strictMode: bool, existingOnly: bool, directoriesOnly: bool,
    checkReadPermission: bool, checkWritePermission: bool)

  /** A QStringRef into the input. */
  datatype Component = Component(position: nat, text: string) {
    function End(): nat {
      position + |text|
    }
  }

  function Located(parts: seq<string>, position: nat): (r: seq<Component>)
    ensures |r| == |parts|
    ensures forall k :: 0 <= k < |r| ==> r[k].text == parts[k]
  {
    if parts == [] then []
    else [Component(position, parts[0])] + Located(parts[1..], position + |parts[0]| + 1)
  }

  /** QString::splitRef with empty parts kept. */
  function Components(input: string): (r: seq<Component>)
    ensures r != []
  {
    Located(Split(input, SEPARATOR), 0)
  }

  /** Each part is the slice of the text that its component refers to. */
  lemma {:induction false} LocatedSlices(text: string, parts: seq<string>, position: nat, k: nat)
    requires k < |parts| && position <= |text| && text[position..] == Join(parts, SEPARATOR)
    ensures IsSlice(text, Located(parts, position)[k], parts[k], k == |parts| - 1)
    decreases |parts|
  {
    var rest := position + |parts[0]| + 1;
    TextStep(text, parts, position);
    if k > 0 {
      LocatedSlices(text, parts[1..], rest, k - 1);
      assert Located(parts, position)[k] == Located(parts[1..], rest)[k - 1];
    }
  }

  predicate IsSlice(text: string, c: Component, part: string, last: bool) {
    && c.End() <= |text| && text[c.position..c.End()] == part
    && if last then c.End() == |text| else c.End() < |text| && text[c.End()] == SEPARATOR
  }

  lemma TextStep(text: string, parts: seq<string>, position: nat)
    requires parts != [] && position <= |text| && text[position..] == Join(parts, SEPARATOR)
    ensures IsSlice(text, Component(position, parts[0]), parts[0], |parts| == 1)
    ensures |parts| > 1 ==> text[position + |parts[0]| + 1..] == Join(parts[1..], SEPARATOR)
  {
    JoinFirst(parts);
    var end := position + |parts[0]|;
    assert text[position..end] == text[position..][..|parts[0]|];
    if |parts| > 1 {
      assert text[end] == text[position..][|parts[0]|];
      assert text[end + 1..] == text[position..][|parts[0]| + 1..];
    }
  }

  lemma JoinFirst(parts: seq<string>)
    requires parts != []
    ensures var all := Join(parts, SEPARATOR);
            && |parts[0]| <= |all| && all[..|parts[0]|] == parts[0]
            && (|parts| == 1 ==> |all| == |parts[0]|)
            && (|parts| > 1 ==>
                  && |all| > |parts[0]| && all[|parts[0]|] == SEPARATOR
                  && all[|parts[0]| + 1..] == Join(parts[1..], SEPARATOR))
  {
  }

  /** The components are the slices of the input between its separators. */
  lemma ComponentsWithin(input: string)
    ensures var cs := Components(input);
            && cs[|cs| - 1].End() == |input|
            && forall k :: 0 <= k < |cs| ==>
                 && cs[k].End() <= |input|
                 && cs[k].text == input[cs[k].position..cs[k].End()] && '/' !in cs[k].text
                 && (k < |cs| - 1 ==> cs[k].End() < |input| && input[cs[k].End()] == '/')
  {
    var parts := Split(input, SEPARATOR);
    JoinOfSplit(input, SEPARATOR);
    SplitParts(input, SEPARATOR);
    assert input[0..] == input;
    forall k | 0 <= k < |parts|
      ensures var c := Components(input)[k];
              && c.End() <= |input| && c.text == input[c.position..c.End()] && '/' !in c.text
              && (k == |parts| - 1 ==> c.End() == |input|)
              && (k < |parts| - 1 ==> c.End() < |input| && input[c.End()] == '/')
    {
      LocatedSlices(input, parts, 0, k);
      assert Free(parts[k], SEPARATOR);
    }
  }

  function TestPath(cfg: Settings, fi: FileInfo, pathIsComplete: bool): TestResult {
    if cfg.existingOnly && !fi.exists_ then DoesNotExist
    else if (!pathIsComplete || cfg.directoriesOnly) && !fi.isDir then NotADir
    else if !pathIsComplete then OK
    else if !cfg.directoriesOnly && fi.isDir then NotAFile
    else if cfg.checkWritePermission && fi.exists_ && !fi.isWritable then CantWrite
    else if cfg.checkReadPermission && !fi.isReadable then CantRead
    else OK
  }

  /** What passes: it exists if it has to, what leads to a component is a directory, and the complete path
      is of the right kind with the permissions asked for. */
  lemma TestPasses(cfg: Settings, fi: FileInfo, complete: bool)
    ensures TestPath(cfg, fi, complete) == OK <==>
            && (cfg.existingOnly ==> fi.exists_)
            && (!complete || cfg.directoriesOnly ==> fi.isDir)
            && (complete ==>
                  && (cfg.directoriesOnly || !fi.isDir)
                  && (cfg.checkWritePermission && fi.exists_ ==> fi.isWritable)
                  && (cfg.checkReadPermission ==> fi.isReadable))
  {
  }

  /** What each error reports; the kind is reported before the permissions, writing before reading. */
  lemma TestReports(cfg: Settings, fi: FileInfo, complete: bool)
    ensures var missing := cfg.existingOnly && !fi.exists_;
            var right := if !complete || cfg.directoriesOnly then fi.isDir else !fi.isDir;
            var unwritable := cfg.checkWritePermission && fi.exists_ && !fi.isWritable;
            var unreadable := cfg.checkReadPermission && !fi.isReadable;
            match TestPath(cfg, fi, complete)
            case DoesNotExist => missing
            case NotADir => !missing && !right && (!complete || cfg.directoriesOnly)
            case NotAFile => !missing && !right && complete && !cfg.directoriesOnly
            case CantWrite => !missing && right && complete && unwritable
            case CantRead => !missing && right && complete && !unwritable && unreadable
            case OK => !missing && right && (complete ==> !unwritable && !unreadable)
  {
  }

  // ----- what is tested, and how it ends ------------------------------------------------

  /** The path up to the end of component `k`. */
  function PathTo(input: string, cs: seq<Component>, k: nat): string
    requires k < |cs|
  {
    if cs[k].End() <= |input| then input[..cs[k].End()] else input
  }

  /** The outcome of testing component `k`; only the last component makes a complete path. */
  function Outcome(cfg: Settings, fs: string -> FileInfo, input: string, cs: seq<Component>, k: nat): TestResult
    requires k < |cs|
  {
    TestPath(cfg, fs(PathTo(input, cs, k)), k == |cs| - 1)
  }

  /** With the cursor in component `cursor`: every non-empty component, the one just before the
      cursor's, and the last one. */
  predicate IsTested(cs: seq<Component>, cursor: nat, k: nat) {
    k < |cs| && (cs[k].text != "" || k + 1 == cursor || k == |cs| - 1)
  }

  ghost predicate FailsAt(cfg: Settings, fs: string -> FileInfo, input: string, cs: seq<Component>, cursor: nat,
                          k: nat) {
    IsTested(cs, cursor, k) && Outcome(cfg, fs, input, cs, k) != OK
  }

  /** `k` is the shortest tested prefix that fails. */
  ghost predicate FirstFailure(cfg: Settings, fs: string -> FileInfo, input: string, cs: seq<Component>, cursor: nat,
                               k: nat) {
    FailsAt(cfg, fs, input, cs, cursor, k) && forall j: nat :: j < k ==> !FailsAt(cfg, fs, input, cs, cursor, j)
  }

  /** How far the cursor search has read when it stands at component `k`. */
  function Reach(cs: seq<Component>, k: nat): nat
    requires k <= |cs|
  {
    if k == 0 then 0 else cs[k - 1].End()
  }

  /** The component the search stops at: the first whose predecessors reach the cursor, or the last. */
  ghost predicate IsCursorComponent(cs: seq<Component>, pos: int, k: nat) {
    && k < |cs| && (k == |cs| - 1 || Reach(cs, k) >= pos)
    && forall j: nat :: j < k ==> Reach(cs, j) < pos
  }

  class FileSystemPathValidator {
    const fs: string -> FileInfo
    var cfg: Settings
    var m_lastTestResult: TestResult
    var m_lastValidationState: State
    var m_lastTestedPath: string

    constructor (fs: string -> FileInfo)
      ensures this.fs == fs && cfg == Settings(false, false, false, false, false)
      ensures m_lastTestResult == DoesNotExist && m_lastValidationState == Invalid
    {
      this.fs := fs;
      cfg := Settings(false, false, false, false, false);
      m_lastTestResult, m_lastValidationState, m_lastTestedPath := DoesNotExist, Invalid, "";
    }

    /** The public validate(). */
    method Validate(input: string, pos: int) returns (state: State, ghost cursor: nat)
      modifies `m_lastTestResult, `m_lastValidationState, `m_lastTestedPath
      ensures input == "" ==>
                && state == (if cfg.strictMode then Invalid else Intermediate)
                && unchanged(this)
      ensures input != "" ==> IsCursorComponent(Components(input), pos, cursor) && m_lastValidationState == state
      ensures input != "" ==> state == Verdict(cfg, fs, input, cursor)
      ensures input != "" ==>
                (state == Acceptable <==>
                  var cs := Components(input);
                  forall k: nat :: k < |cs| && (cs[k].text != "" || k + 1 == cursor || k + 1 == |cs|) ==>
                    && cs[k].End() <= |input|
                    && var fi := fs(input[..cs[k].End()]);
                       && (cfg.existingOnly ==> fi.exists_)
                       && (k + 1 < |cs| || cfg.directoriesOnly ==> fi.isDir)
                       && (k + 1 == |cs| ==>
                             && (cfg.directoriesOnly || !fi.isDir)
                             && (cfg.checkWritePermission && fi.exists_ ==> fi.isWritable)
                             && (cfg.checkReadPermission ==> fi.isReadable)))
      ensures input != "" ==>
                (state == Invalid <==>
                  cfg.strictMode &&
                  exists k: nat :: k < cursor && FailsAt(cfg, fs, input, Components(input), cursor, k))
      ensures input != "" && state != Acceptable ==>
                exists k: nat :: FirstFailure(cfg, fs, input, Components(input), cursor, k)
                                 && m_lastTestedPath == PathTo(input, Components(input), k)
                                 && m_lastTestResult == Outcome(cfg, fs, input, Components(input), k)
    {
      cursor := 0;
      if input == "" {
        state := if cfg.strictMode then Invalid else Intermediate;
        return;
      }
      var components := Components(input);
      ComponentsWithin(input);
      assert forall k :: 0 <= k < |components| ==> components[k].End() <= |input|;
      var componentWithCursorIndex := FindCursorComponent(components, pos);
      cursor := componentWithCursorIndex;
      AcceptedIff(cfg, fs, input, cursor);
      state := ValidateAround(input, components, componentWithCursorIndex);
    }

    /** The loop that looks for the cursor's component; it goes one past the component the cursor is in. */
    method FindCursorComponent(components: seq<Component>, pos: int) returns (index: nat)
      requires components != []
      ensures IsCursorComponent(components, pos, index)
    {
      index := 0;
      var pathLength := 0;
      while index < |components| - 1 && pathLength < pos
        invariant index < |components| && pathLength == Reach(components, index)
        invariant forall j: nat :: j < index ==> Reach(components, j) < pos
      {
        pathLength := components[index].End();
        index := index + 1;
      }
    }

    /** The components before the cursor's in the configured mode, then the others leniently. */
    method ValidateAround(input: string, components: seq<Component>, cursor: nat) returns (state: State)
      requires cursor < |components| && forall k :: 0 <= k < |components| ==> components[k].End() <= |input|
      modifies `m_lastTestResult, `m_lastValidationState, `m_lastTestedPath
      ensures m_lastValidationState == state
      ensures state == Acceptable ==> forall k: nat :: k < |components| ==>
          !FailsAt(cfg, fs, input, components, cursor, k)
      ensures state == Invalid <==>
              cfg.strictMode && exists k: nat :: k < cursor && FailsAt(cfg, fs, input, components, cursor, k)
      ensures state != Acceptable ==>
                exists k: nat :: FirstFailure(cfg, fs, input, components, cursor, k)
                                 && m_lastTestedPath == PathTo(input, components, k)
                                 && m_lastTestResult == Outcome(cfg, fs, input, components, k)
    {
      m_lastValidationState := Acceptable;
      if cursor > 0 {
        m_lastValidationState := ValidateRange(input, components, cfg.strictMode, 0, cursor - 1, cursor);
      }
      assert m_lastValidationState == Acceptable ==>
          forall k: nat :: k < cursor ==> !FailsAt(cfg, fs, input, components, cursor, k);
      if m_lastValidationState == Acceptable {
        m_lastValidationState := ValidateRange(input, components, false, cursor, |components| - 1, cursor);
        assert m_lastValidationState == Acceptable ==>
            forall k: nat :: cursor <= k < |components| ==> !FailsAt(cfg, fs, input, components, cursor, k);
      }
      state := m_lastValidationState;
    }

    /** The private validate(), on the components from `first` to `last`; the last one is tested even
        when it is empty. */
    method ValidateRange(path: string, components: seq<Component>, strict: bool, first: nat, last: nat,
                         ghost cursor: nat)
      returns (state: State)
      requires first <= last < |components|
      requires last + 1 == cursor || (last == |components| - 1 && first == cursor)
      requires forall k :: 0 <= k < |components| ==> components[k].End() <= |path|
      modifies `m_lastTestResult, `m_lastTestedPath
      ensures state == Acceptable <==>
                forall k: nat :: first <= k <= last ==> !FailsAt(cfg, fs, path, components, cursor, k)
      ensures state != Acceptable ==> state == if strict then Invalid else Intermediate
      ensures state != Acceptable ==>
                exists k: nat :: first <= k <= last && FailsAt(cfg, fs, path, components, cursor, k)
                                 && (forall j: nat :: first <= j < k ==> !FailsAt(cfg, fs, path, components, cursor, j))
                                 && m_lastTestedPath == PathTo(path, components, k)
                                 && m_lastTestResult == Outcome(cfg, fs, path, components, k)
    {
      m_lastTestResult := DoesNotExist;
      for i := first to last
        invariant forall k: nat :: first <= k < i ==> !FailsAt(cfg, fs, path, components, cursor, k)
      {
        if components[i].text != "" {
          var componentPath := path[..components[i].End()];
          m_lastTestResult := TestPath(cfg, fs(componentPath), false);
          if m_lastTestResult != OK {
            m_lastTestedPath := componentPath;
            assert FailsAt(cfg, fs, path, components, cursor, i);
            return if strict then Invalid else Intermediate;
          }
        }
      }
      var finalPath := last == |components| - 1;
      var componentPath := path[..components[last].End()];
      m_lastTestResult := TestPath(cfg, fs(componentPath), finalPath);
      if m_lastTestResult != OK {
        m_lastTestedPath := componentPath;
        assert FailsAt(cfg, fs, path, components, cursor, last);
        return if strict then Invalid else Intermediate;
      }
      state := Acceptable;
    }
  }

  // ----- the cursor's influence -----------------------------------------------------------

  /** Acceptable, for a cursor component: nothing tested fails. */
  ghost predicate Accepted(cfg: Settings, fs: string -> FileInfo, input: string, cursor: nat) {
    forall k: nat :: k < |Components(input)| ==> !FailsAt(cfg, fs, input, Components(input), cursor, k)
  }

  /** Acceptable, by what the file system says of each tested prefix: those of the non-empty components,
      the one before the cursor's and the whole input. */
  lemma AcceptedIff(cfg: Settings, fs: string -> FileInfo, input: string, cursor: nat)
    ensures Accepted(cfg, fs, input, cursor) <==>
            var cs := Components(input);
            forall k: nat :: k < |cs| && (cs[k].text != "" || k + 1 == cursor || k + 1 == |cs|) ==>
              && cs[k].End() <= |input|
              && var fi := fs(input[..cs[k].End()]);
                 && (cfg.existingOnly ==> fi.exists_)
                 && (k + 1 < |cs| || cfg.directoriesOnly ==> fi.isDir)
                 && (k + 1 == |cs| ==>
                       && (cfg.directoriesOnly || !fi.isDir)
                       && (cfg.checkWritePermission && fi.exists_ ==> fi.isWritable)
                       && (cfg.checkReadPermission ==> fi.isReadable))
  {
    var cs := Components(input);
    ComponentsWithin(input);
    forall k: nat | k < |cs|
      ensures !FailsAt(cfg, fs, input, cs, cursor, k) <==>
              (cs[k].text != "" || k + 1 == cursor || k + 1 == |cs| ==>
                var fi := fs(input[..cs[k].End()]);
                && (cfg.existingOnly ==> fi.exists_)
                && (k + 1 < |cs| || cfg.directoriesOnly ==> fi.isDir)
                && (k + 1 == |cs| ==>
                      && (cfg.directoriesOnly || !fi.isDir)
                      && (cfg.checkWritePermission && fi.exists_ ==> fi.isWritable)
                      && (cfg.checkReadPermission ==> fi.isReadable)))
    {
      TestPasses(cfg, fs(PathTo(input, cs, k)), k == |cs| - 1);
    }
  }

  /** The cursor changes what is acceptable only through the component just before it, and only when
      that component is empty: then its prefix has to pass too. */
  lemma CursorMatters(cfg: Settings, fs: string -> FileInfo, input: string, cursor: nat)
    requires cursor < |Components(input)|
    ensures Accepted(cfg, fs, input, cursor) <==>
            && Accepted(cfg, fs, input, 0)
            && (cursor > 0 && Components(input)[cursor - 1].text == "" ==>
                  Outcome(cfg, fs, input, Components(input), cursor - 1) == OK)
  {
    var cs := Components(input);
    forall k: nat | k < |cs|
      ensures IsTested(cs, cursor, k) <==> IsTested(cs, 0, k) || k + 1 == cursor
    {
    }
    if Accepted(cfg, fs, input, cursor) {
      forall k: nat | k < |cs|
        ensures !FailsAt(cfg, fs, input, cs, 0, k)
      {
        assert !FailsAt(cfg, fs, input, cs, cursor, k);
      }
      if cursor > 0 {
        assert !FailsAt(cfg, fs, input, cs, cursor, cursor - 1);
      }
    } else {
      var k: nat :| k < |cs| && FailsAt(cfg, fs, input, cs, cursor, k);
      assert k + 1 != cursor ==> FailsAt(cfg, fs, input, cs, 0, k);
      assert k + 1 == cursor && cs[k].text != "" ==> FailsAt(cfg, fs, input, cs, 0, k);
    }
  }

  /** The state validate() returns for a non-empty input, by the index its cursor search stops at. */
  ghost function Verdict(cfg: Settings, fs: string -> FileInfo, input: string, cursor: nat): State {
    if Accepted(cfg, fs, input, cursor) then Acceptable
    else if cfg.strictMode && exists k: nat :: k < cursor && FailsAt(cfg, fs, input, Components(input), cursor, k) then
      Invalid
    else Intermediate
  }

  /** A cursor that does not stand right after an empty component tests what every such cursor does. */
  predicate BehindText(input: string, cursor: nat) {
    cursor < |Components(input)| && (cursor > 0 ==> Components(input)[cursor - 1].text != "")
  }

  /** The verdict for such a cursor: acceptable when nothing fails; otherwise invalid, in strict mode, when
      the cursor index lies past the first failing component, and intermediate when it does not. */
  lemma VerdictByFirstFailure(cfg: Settings, fs: string -> FileInfo, input: string, cursor: nat, first: nat)
    requires BehindText(input, cursor)
    ensures Accepted(cfg, fs, input, 0) ==> Verdict(cfg, fs, input, cursor) == Acceptable
    ensures FirstFailure(cfg, fs, input, Components(input), 0, first) ==>
              Verdict(cfg, fs, input, cursor) == if cfg.strictMode && first < cursor then Invalid else Intermediate
  {
    var cs := Components(input);
    forall k: nat
      ensures FailsAt(cfg, fs, input, cs, cursor, k) <==> FailsAt(cfg, fs, input, cs, 0, k)
    {
      assert k < |cs| ==> (IsTested(cs, cursor, k) <==> IsTested(cs, 0, k));
    }
    if FirstFailure(cfg, fs, input, cs, 0, first) {
      assert FailsAt(cfg, fs, input, cs, cursor, first);
    }
  }

  /** So, in non-strict mode, two such cursors get the same verdict. In strict mode they agree on what is
      acceptable, and otherwise each is invalid exactly when its index lies past the first failing
      component. */
  lemma CursorIrrelevant(cfg: Settings, fs: string -> FileInfo, input: string, c: nat, c': nat)
    requires BehindText(input, c) && BehindText(input, c')
    ensures Accepted(cfg, fs, input, c) <==> Accepted(cfg, fs, input, c')
    ensures Verdict(cfg, fs, input, c) == Verdict(cfg, fs, input, c') <==>
            || !cfg.strictMode
            || forall first: nat :: FirstFailure(cfg, fs, input, Components(input), 0, first) ==>
                                      (first < c <==> first < c')
  {
    var cs := Components(input);
    CursorMatters(cfg, fs, input, c);
    CursorMatters(cfg, fs, input, c');
    if Accepted(cfg, fs, input, 0) {
      VerdictByFirstFailure(cfg, fs, input, c, 0);
      VerdictByFirstFailure(cfg, fs, input, c', 0);
      assert forall first: nat :: first < |cs| ==> !FailsAt(cfg, fs, input, cs, 0, first);
    } else {
      var k: nat :| k < |cs| && FailsAt(cfg, fs, input, cs, 0, k);
      var first := FindFirst(cfg, fs, input, k);
      VerdictByFirstFailure(cfg, fs, input, c, first);
      VerdictByFirstFailure(cfg, fs, input, c', first);
      assert forall g: nat :: FirstFailure(cfg, fs, input, cs, 0, g) ==> g == first;
    }
  }

  lemma {:induction false} FindFirst(cfg: Settings, fs: string -> FileInfo, input: string, k: nat) returns (first: nat)
    requires FailsAt(cfg, fs, input, Components(input), 0, k)
    ensures FirstFailure(cfg, fs, input, Components(input), 0, first)
    decreases k
  {
    if j: nat :| j < k && FailsAt(cfg, fs, input, Components(input), 0, j) {
      first := FindFirst(cfg, fs, input, j);
    } else {
      first := k;
    }
  }

  // ----- which component the search stops at ------------------------------------------------

  lemma {:induction false} LocatedSteps(parts: seq<string>, position: nat, k: nat)
    requires k < |parts|
    ensures k == 0 ==> Located(parts, position)[0].position == position
    ensures k > 0 ==> Located(parts, position)[k].position == Located(parts, position)[k - 1].End() + 1
    decreases |parts|
  {
    if k > 0 {
      var rest := Located(parts[1..], position + |parts[0]| + 1);
      assert Located(parts, position) == [Component(position, parts[0])] + rest;
      LocatedSteps(parts[1..], position + |parts[0]| + 1, k - 1);
    }
  }

  /** A separator lies between each two components, and they start at the beginning of the input. */
  lemma Adjacent(input: string, k: nat)
    requires k < |Components(input)|
    ensures var cs := Components(input);
            cs[k].position == if k == 0 then 0 else cs[k - 1].End() + 1
  {
    LocatedSteps(Split(input, SEPARATOR), 0, k);
  }

  /** Components lie in the order of their indexes. */
  lemma {:induction false} Ordered(input: string, j: nat, k: nat)
    requires j < k < |Components(input)|
    ensures Components(input)[j].End() < Components(input)[k].position
    decreases k
  {
    Adjacent(input, k);
    if j < k - 1 {
      Ordered(input, j, k - 1);
    }
  }

  /** The cursor at `pos` stands in component `c`, or at one of its ends. */
  predicate StandsIn(cs: seq<Component>, pos: int, c: nat) {
    c < |cs| && cs[c].position <= pos <= cs[c].End()
  }

  lemma {:induction false} SomeComponent(input: string, pos: int, n: nat) returns (c: nat)
    requires n < |Components(input)| && 0 <= pos <= Components(input)[n].End()
    ensures c <= n && StandsIn(Components(input), pos, c)
    decreases n
  {
    Adjacent(input, n);
    if Components(input)[n].position <= pos {
      c := n;
    } else {
      c := SomeComponent(input, pos, n - 1);
    }
  }

  /** Every cursor position in the input belongs to exactly one component. */
  lemma OneComponent(input: string, pos: int)
    requires 0 <= pos <= |input|
    ensures exists c: nat :: StandsIn(Components(input), pos, c)
    ensures forall c: nat, d: nat :: StandsIn(Components(input), pos, c) && StandsIn(Components(input), pos, d) ==>
        c == d
  {
    var cs := Components(input);
    ComponentsWithin(input);
    var c := SomeComponent(input, pos, |cs| - 1);
    forall c: nat, d: nat | StandsIn(cs, pos, c) && StandsIn(cs, pos, d)
      ensures c == d
    {
      if c < d { Ordered(input, c, d); }
      if d < c { Ordered(input, d, c); }
    }
  }

  /** The search stops one past the component the cursor stands in, unless that is the last one; only
      at the very beginning of the input it stops at the first. */
  lemma SearchGoesOnePast(input: string, pos: int, k: nat)
    requires IsCursorComponent(Components(input), pos, k)
    ensures pos <= 0 ==> k == 0
    ensures forall c: nat :: pos > 0 && StandsIn(Components(input), pos, c) ==>
              k == if c + 1 < |Components(input)| then c + 1 else c
    ensures pos > |input| ==> k == |Components(input)| - 1
  {
    var cs := Components(input);
    ComponentsWithin(input);
    assert pos <= 0 ==> Reach(cs, 0) >= pos;
    forall c: nat | pos > 0 && StandsIn(cs, pos, c)
      ensures k == if c + 1 < |cs| then c + 1 else c
    {
      Adjacent(input, c);
      assert Reach(cs, c) < pos <= Reach(cs, c + 1);
      if k < c {
        if k > 0 { Ordered(input, k - 1, c); }
      }
    }
  }

  /** So in a rooted path the component before the cursor's is the empty one before the root exactly
      when the root is followed by a single name, or nothing, and the cursor is behind the root. */
  lemma RootedCursor(input: string, pos: int, k: nat)
    requires input != "" && input[0] == '/' && IsCursorComponent(Components(input), pos, k)
    ensures k == 1 <==> pos > 0 && |Components(input)| == 2
  {
    var cs := Components(input);
    RootFirst(input);
    SearchGoesOnePast(input, pos, k);
    if 0 < pos <= |input| {
      OneComponent(input, pos);
      var c: nat :| StandsIn(cs, pos, c);
      assert c > 0;
    }
  }

  lemma RootFirst(input: string)
    requires input != "" && input[0] == SEPARATOR
    ensures |Components(input)| >= 2 && Components(input)[0] == Component(0, "")
  {
  }

  /** The case where the cursor matters: such a path, "/a" say, is then never accepted when the empty
      path names no directory, while with the cursor in front of the root it is judged by its other
      components alone. */
  lemma RootedPathRejected(cfg: Settings, fs: string -> FileInfo, input: string, pos: int, k: nat)
    requires input != "" && input[0] == '/' && |Components(input)| == 2 && !fs("").isDir
    requires IsCursorComponent(Components(input), pos, k)
    ensures Accepted(cfg, fs, input, k) <==> pos <= 0 && Accepted(cfg, fs, input, 0)
  {
    var cs := Components(input);
    RootFirst(input);
    RootedCursor(input, pos, k);
    SearchGoesOnePast(input, pos, k);
    CursorMatters(cfg, fs, input, k);
    assert PathTo(input, cs, 0) == "";
    assert Outcome(cfg, fs, input, cs, 0) != OK;
  }
}
