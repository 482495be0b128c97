/** The message a second instance sends to the running one: QBtCommandLineParameters::paramList
    (src/app/cmdoptions.cpp) prints it, Application::processMessage and processParams
    (src/app/application.cpp) read it back. */
module InstanceMessages {
  import opened Collections
  import opened Strings

  /** The fields of QBtCommandLineParameters that paramList passes on. */
  datatype CommandLine = CommandLine(
    savePath: string, addPaused: Option<bool>, skipChecking: bool, category: string,
    sequential: bool, firstLastPiecePriority: bool, skipDialog: Option<bool>, torrents: seq<string>)

  /** The fields of BitTorrent::AddTorrentParams that processParams sets. */
  datatype AddTorrentParams = AddTorrentParams(
    savePath: string, addPaused: Option<bool>, skipChecking: bool, category: string,
    sequential: bool, firstLastPiecePriority: bool)

  /** processParams' local variables. */
  datatype State = State(params: AddTorrentParams, skipDialog: Option<bool>)

  /** One torrent handed on, to the dialog or straight to the session. */
  datatype Delivery = Delivery(source: string, params: AddTorrentParams, showDialog: bool)

  const PARAMS_SEPARATOR: char := '|'
  const SAVE_PATH := "@savePath="
  const ADD_PAUSED := "@addPaused="
  const SKIP_CHECKING := "@skipChecking"
  const CATEGORY := "@category="
  const SEQUENTIAL := "@sequential"
  const FIRST_LAST := "@firstLastPiecePriority"
  const SKIP_DIALOG := "@skipDialog="

  const INITIAL := State(AddTorrentParams("", None, false, "", false, false), None)

  // ----- the sending side -------------------------------------------------------------

  function Flag(value: bool): string {
    if value then "1" else "0"
  }

  function When(present: bool, param: string): seq<string> {
    if present then [param] else []
  }

  function Options(c: CommandLine): seq<string> {
    When(c.savePath != "", SAVE_PATH + c.savePath)
    + When(c.addPaused.Some?, ADD_PAUSED + Flag(c.addPaused == Some(true)))
    + When(c.skipChecking, SKIP_CHECKING)
    + When(c.category != "", CATEGORY + c.category)
    + When(c.sequential, SEQUENTIAL)
    + When(c.firstLastPiecePriority, FIRST_LAST)
    + When(c.skipDialog.Some?, SKIP_DIALOG + Flag(c.skipDialog == Some(true)))
  }

  method ParamList(c: CommandLine) returns (result: seq<string>)
    ensures result == Options(c) + c.torrents
  {
    result := [];
    if c.savePath != "" {
      result := result + [SAVE_PATH + c.savePath];
    }
    ghost var done := When(c.savePath != "", SAVE_PATH + c.savePath);
    assert result == done;
    if c.addPaused.Some? {
      result := result + [ADD_PAUSED + Flag(c.addPaused.value)];
    }
    done := done + When(c.addPaused.Some?, ADD_PAUSED + Flag(c.addPaused == Some(true)));
    assert result == done;
    if c.skipChecking {
      result := result + [SKIP_CHECKING];
    }
    done := done + When(c.skipChecking, SKIP_CHECKING);
    assert result == done;
    if c.category != "" {
      result := result + [CATEGORY + c.category];
    }
    done := done + When(c.category != "", CATEGORY + c.category);
    assert result == done;
    if c.sequential {
      result := result + [SEQUENTIAL];
    }
    done := done + When(c.sequential, SEQUENTIAL);
    assert result == done;
    if c.firstLastPiecePriority {
      result := result + [FIRST_LAST];
    }
    done := done + When(c.firstLastPiecePriority, FIRST_LAST);
    assert result == done;
    if c.skipDialog.Some? {
      result := result + [SKIP_DIALOG + Flag(c.skipDialog.value)];
    }
    done := done + When(c.skipDialog.Some?, SKIP_DIALOG + Flag(c.skipDialog == Some(true)));
    assert result == done;
    result := result + c.torrents;
  }

  /** sendParams. */
  function Message(c: CommandLine): string {
    Join(Options(c) + c.torrents, PARAMS_SEPARATOR)
  }

  // ----- the receiving side -------------------------------------------------------------

  /** The environment of processParams: whether the "add new torrent" dialog is switched on, and
      QString::toInt, of which only the two flag texts matter here. */
  datatype Env = Env(dialogEnabled: bool, toInt: string -> int)

  predicate ReadsFlags(env: Env) {
    env.toInt("0") == 0 && env.toInt("1") != 0
  }

  /** One received parameter: an option the loop of processParams records, or a source. */
  datatype Param =
    | SavePath(path: string)
    | AddPaused(number: string)
    | SkipChecking
    | Category(name: string)
    | Sequential
    | FirstLastPiecePriority
    | SkipDialog(number: string)
    | Source(source: string)

  predicate StartsWith(s: string, prefix: string) {
    |prefix| <= |s| && s[..|prefix|] == prefix
  }

  /** The tests of processParams on a trimmed parameter, in its order. */
  function Classified(param: string): (p: Param)
    ensures p.Source? ==> p.source == param
    ensures p.SavePath? ==> |param| >= 10 && p.path == param[10..]
    ensures p.Category? ==> |param| >= 10 && p.name == param[10..]
  {
    if StartsWith(param, SAVE_PATH) then SavePath(param[10..])
    else if StartsWith(param, ADD_PAUSED) then AddPaused(param[11..])
    else if param == SKIP_CHECKING then SkipChecking
    else if StartsWith(param, CATEGORY) then Category(param[10..])
    else if param == SEQUENTIAL then Sequential
    else if param == FIRST_LAST then FirstLastPiecePriority
    else if StartsWith(param, SKIP_DIALOG) then SkipDialog(param[12..])
    else Source(param)
  }

  /** The texts that processParams does not take for a source. */
  predicate IsOption(s: string) {
    || SAVE_PATH <= s || ADD_PAUSED <= s || CATEGORY <= s || SKIP_DIALOG <= s
    || s == SKIP_CHECKING || s == SEQUENTIAL || s == FIRST_LAST
  }

  function Parsed(params: seq<string>): (r: seq<Param>)
    ensures |r| == |params|
  {
    seq(|params|, i requires 0 <= i < |params| => Classified(Trimmed(params[i])))
  }

  function Applied(st: State, p: Param, env: Env): State {
    match p
    case SavePath(path) => st.(params := st.params.(savePath := path))
    case AddPaused(number) => st.(params := st.params.(addPaused := Some(env.toInt(number) != 0)))
    case SkipChecking => st.(params := st.params.(skipChecking := true))
    case Category(name) => st.(params := st.params.(category := name))
    case Sequential => st.(params := st.params.(sequential := true))
    case FirstLastPiecePriority => st.(params := st.params.(firstLastPiecePriority := true))
    case SkipDialog(number) => st.(skipDialog := Some(env.toInt(number) != 0))
    case Source(_) => st
  }

  function ShowDialog(st: State, env: Env): bool {
    !(if st.skipDialog.Some? then st.skipDialog.value else !env.dialogEnabled)
  }

  function StateAfter(ps: seq<Param>, st: State, env: Env): State
    decreases |ps|
  {
    if ps == [] then st else StateAfter(ps[1..], Applied(st, ps[0], env), env)
  }

  /** What a list of parameters hands on, starting with the settings `st`. */
  function Deliveries(ps: seq<Param>, st: State, env: Env): seq<Delivery>
    decreases |ps|
  {
    if ps == [] then []
    else
      (if ps[0].Source? then [Delivery(ps[0].source, st.params, ShowDialog(st, env))] else [])
      + Deliveries(ps[1..], Applied(st, ps[0], env), env)
  }

  lemma {:induction false} DeliveriesConcat(a: seq<Param>, b: seq<Param>, st: State, env: Env)
    ensures Deliveries(a + b, st, env) ==
            Deliveries(a, st, env) + Deliveries(b, StateAfter(a, st, env), env)
    ensures StateAfter(a + b, st, env) == StateAfter(b, StateAfter(a, st, env), env)
    decreases |a|
  {
    if a == [] {
      assert a + b == b;
    } else {
      assert (a + b)[1..] == a[1..] + b && (a + b)[0] == a[0];
      DeliveriesConcat(a[1..], b, Applied(st, a[0], env), env);
    }
  }

  class Application {
    var m_running: bool
    var m_paramsQueue: seq<string>
    const env: Env
    /** What was handed on so far, and how often the window was only brought to the front. */
    var delivered: seq<Delivery>
    var activations: nat

    constructor (env: Env)
      ensures !m_running && m_paramsQueue == [] && delivered == [] && activations == 0
      ensures this.env == env
    {
      m_running, m_paramsQueue, delivered, activations := false, [], [], 0;
      this.env := env;
    }

    method ProcessParams(params: seq<string>)
      modifies `delivered, `activations
      ensures delivered == old(delivered) + Deliveries(Parsed(params), INITIAL, env)
      ensures activations == old(activations) + if params == [] then 1 else 0
    {
      if params == [] {
        activations := activations + 1;
        return;
      }
      ProcessParsed(Parsed(params));
    }

    /** The loop of processParams. */
    method ProcessParsed(ps: seq<Param>)
      modifies `delivered
      ensures delivered == old(delivered) + Deliveries(ps, INITIAL, env)
    {
      var st := INITIAL;
      ghost var out := [];
      for n := 0 to |ps|
        invariant delivered == old(delivered) + out
        invariant out + Deliveries(ps[n..], st, env) == Deliveries(ps, INITIAL, env)
      {
        assert ps[n..][0] == ps[n] && ps[n..][1..] == ps[n + 1..];
        ghost var rest := Deliveries(ps[n + 1..], Applied(st, ps[n], env), env);
        match ps[n]
        case Source(source) =>
          var delivery := Delivery(source, st.params, ShowDialog(st, env));
          delivered := delivered + [delivery];
          assert (out + [delivery]) + rest == out + ([delivery] + rest);
          out := out + [delivery];
        case _ =>
          assert [] + rest == rest;
          st := Applied(st, ps[n], env);
      }
    }

    method ProcessMessage(message: string)
      modifies `delivered, `activations, `m_paramsQueue
      ensures m_paramsQueue ==
              old(m_paramsQueue) + if m_running then [] else SplitSkippingEmpty(message, PARAMS_SEPARATOR)
      ensures m_running ==>
                && delivered == old(delivered)
                                + Deliveries(Parsed(SplitSkippingEmpty(message, PARAMS_SEPARATOR)), INITIAL, env)
                && activations == old(activations)
                                  + if SplitSkippingEmpty(message, PARAMS_SEPARATOR) == [] then 1 else 0
      ensures !m_running ==> delivered == old(delivered) && activations == old(activations)
    {
      var params := SplitSkippingEmpty(message, PARAMS_SEPARATOR);
      if m_running {
        ProcessParams(params);
      } else {
        m_paramsQueue := m_paramsQueue + params;
      }
    }

    /** The part of exec() that starts serving: its own parameters first, then what was queued. */
    method Exec(params: seq<string>)
      modifies this
      ensures m_running && m_paramsQueue == [] && activations == old(activations)
      ensures delivered == old(delivered) + Deliveries(Parsed(params + old(m_paramsQueue)), INITIAL, env)
    {
      m_running := true;
      m_paramsQueue := params + m_paramsQueue;
      if m_paramsQueue != [] {
        ProcessParams(m_paramsQueue);
        m_paramsQueue := [];
      }
    }
  }

  // ----- a message arrives as it was meant ----------------------------------------------

  function ParamsOf(c: CommandLine): AddTorrentParams {
    AddTorrentParams(c.savePath, c.addPaused, c.skipChecking, c.category, c.sequential, c.firstLastPiecePriority)
  }

  /** Each source once, in order, all with the same settings. */
  function ToEach(sources: seq<string>, params: AddTorrentParams, showDialog: bool): (r: seq<Delivery>)
    ensures |r| == |sources|
    ensures forall i :: 0 <= i < |r| ==> r[i] == Delivery(sources[i], params, showDialog)
  {
    seq(|sources|, i requires 0 <= i < |sources| => Delivery(sources[i], params, showDialog))
  }

  /** What the sender means: each torrent with the settings of the command line, and the dialog shown if
      that is asked for, or if nothing is said about it and it is switched on. */
  function Meant(c: CommandLine, env: Env): (r: seq<Delivery>)
    ensures |r| == |c.torrents|
    ensures forall i :: 0 <= i < |r| ==>
              && r[i].source == c.torrents[i]
              && r[i].params.savePath == c.savePath && r[i].params.addPaused == c.addPaused
              && r[i].params.skipChecking == c.skipChecking && r[i].params.category == c.category
              && r[i].params.sequential == c.sequential
              && r[i].params.firstLastPiecePriority == c.firstLastPiecePriority
              && (r[i].showDialog <==> c.skipDialog == Some(false) || (c.skipDialog.None? && env.dialogEnabled))
  {
    ToEach(c.torrents, ParamsOf(c), c.skipDialog == Some(false) || (c.skipDialog.None? && env.dialogEnabled))
  }

  /** What the running instance hands on. */
  function Received(c: CommandLine, env: Env): seq<Delivery> {
    Deliveries(Parsed(SplitSkippingEmpty(Message(c), PARAMS_SEPARATOR)), INITIAL, env)
  }

  predicate CleanText(s: string) {
    Free(s, '|') && NoTrailingSpace(s)
  }

  /** A source that can be sent, but for being empty. */
  predicate CleanSource(s: string) {
    Free(s, '|') && Trimmed(s) == s && !IsOption(s)
  }

  predicate Transportable(c: CommandLine) {
    && CleanText(c.savePath) && CleanText(c.category)
    && forall s :: s in c.torrents ==> CleanSource(s) && s != ""
  }

  /** The option strings' lengths and the characters that tell them apart. */
  lemma Marks()
    ensures |SAVE_PATH| == 10 && |ADD_PAUSED| == 11 && |CATEGORY| == 10 && |SKIP_DIALOG| == 12
    ensures |SKIP_CHECKING| == 13 && |SEQUENTIAL| == 11 && |FIRST_LAST| == 23
    ensures SAVE_PATH[1] == 's' && ADD_PAUSED[1] == 'a' && CATEGORY[1] == 'c' && FIRST_LAST[1] == 'f'
    ensures SKIP_CHECKING[1] == 's' && SEQUENTIAL[1] == 's' && SKIP_DIALOG[1] == 's'
    ensures SAVE_PATH[2] == 'a' && SKIP_CHECKING[2] == 'k' && SEQUENTIAL[2] == 'e' && SKIP_DIALOG[2] == 'k'
    ensures SKIP_CHECKING[5] == 'C' && SKIP_DIALOG[5] == 'D'
    ensures forall m :: m in {SAVE_PATH, ADD_PAUSED, SKIP_CHECKING, CATEGORY, SEQUENTIAL, FIRST_LAST, SKIP_DIALOG} ==>
              m[0] == '@'
    ensures SKIP_CHECKING[12] == 'g' && SEQUENTIAL[10] == 'l' && FIRST_LAST[22] == 'y'
  {
  }

  /** Letters of what starts with, or is, an option string. */
  lemma OptionLetters(s: string)
    ensures StartsWith(s, SAVE_PATH) ==> s[1] == 's' && s[2] == 'a'
    ensures StartsWith(s, ADD_PAUSED) ==> s[1] == 'a'
    ensures s == SKIP_CHECKING ==> s[1] == 's' && s[2] == 'k' && s[5] == 'C'
    ensures StartsWith(s, CATEGORY) ==> s[1] == 'c'
    ensures s == SEQUENTIAL ==> s[1] == 's' && s[2] == 'e'
    ensures s == FIRST_LAST ==> s[1] == 'f'
    ensures StartsWith(s, SKIP_DIALOG) ==> s[1] == 's' && s[2] == 'k' && s[5] == 'D'
  {
    Marks();
    LetterAt(s, SAVE_PATH, 1);
    LetterAt(s, SAVE_PATH, 2);
    LetterAt(s, ADD_PAUSED, 1);
    LetterAt(s, CATEGORY, 1);
    LetterAt(s, SKIP_DIALOG, 1);
    LetterAt(s, SKIP_DIALOG, 2);
    LetterAt(s, SKIP_DIALOG, 5);
  }

  lemma LetterAt(s: string, p: string, k: nat)
    requires k < |p|
    ensures StartsWith(s, p) ==> s[k] == p[k]
  {
    assert StartsWith(s, p) ==> s[..|p|][k] == s[k];
  }

  /** No two of the tests hold of one text, so their order does not matter. */
  lemma ClassifiedByTest(s: string)
    ensures StartsWith(s, SAVE_PATH) <==> Classified(s).SavePath?
    ensures StartsWith(s, ADD_PAUSED) <==> Classified(s).AddPaused?
    ensures s == SKIP_CHECKING <==> Classified(s).SkipChecking?
    ensures StartsWith(s, CATEGORY) <==> Classified(s).Category?
    ensures s == SEQUENTIAL <==> Classified(s).Sequential?
    ensures s == FIRST_LAST <==> Classified(s).FirstLastPiecePriority?
    ensures StartsWith(s, SKIP_DIALOG) <==> Classified(s).SkipDialog?
  {
    OptionLetters(s);
  }

  lemma StartIff(s: string, p: string, text: string)
    ensures s == p + text <==> StartsWith(s, p) && s[|p|..] == text
  {
  }

  /** What each text is read as: the option it prints, with the text printed behind it, or a source. */
  lemma ClassifiedIff(s: string, text: string)
    ensures Classified(s) == SavePath(text) <==> s == "@savePath=" + text
    ensures Classified(s) == AddPaused(text) <==> s == "@addPaused=" + text
    ensures Classified(s) == SkipChecking <==> s == "@skipChecking"
    ensures Classified(s) == Category(text) <==> s == "@category=" + text
    ensures Classified(s) == Sequential <==> s == "@sequential"
    ensures Classified(s) == FirstLastPiecePriority <==> s == "@firstLastPiecePriority"
    ensures Classified(s) == SkipDialog(text) <==> s == "@skipDialog=" + text
  {
    ClassifiedByTest(s);
    StartIff(s, SAVE_PATH, text);
    StartIff(s, ADD_PAUSED, text);
    StartIff(s, CATEGORY, text);
    StartIff(s, SKIP_DIALOG, text);
    Marks();
  }

  /** Exactly which texts are sources, and then of themselves. */
  lemma SourceIff(s: string)
    ensures Classified(s).Source? <==>
            && !("@savePath=" <= s) && !("@addPaused=" <= s) && !("@category=" <= s) && !("@skipDialog=" <= s)
            && s != "@skipChecking" && s != "@sequential" && s != "@firstLastPiecePriority"
    ensures Classified(s).Source? <==> !IsOption(s)
    ensures Classified(s).Source? ==> Classified(s).source == s
  {
  }

  /** A text without a space at either end trims to itself. */
  lemma TrimsToItself(s: string)
    requires s != "" && !IsSpace(s[0]) && !IsSpace(s[|s| - 1])
    ensures Trimmed(s) == s
  {
    TrimmedFixed(s);
  }

  /** The option strings are recognized, once trimmed. */
  lemma SavePathRecognized(s: string, path: string)
    requires path != "" && NoTrailingSpace(path) && s == SAVE_PATH + path
    ensures Classified(Trimmed(s)) == SavePath(path)
  {
    Marks();
    TrimsToItself(s);
    ClassifiedIff(s, path);
  }

  lemma AddPausedRecognized(s: string, value: bool)
    requires s == ADD_PAUSED + Flag(value)
    ensures Classified(Trimmed(s)) == AddPaused(Flag(value))
  {
    Marks();
    TrimsToItself(s);
    ClassifiedIff(s, Flag(value));
  }

  lemma CategoryRecognized(s: string, name: string)
    requires name != "" && NoTrailingSpace(name) && s == CATEGORY + name
    ensures Classified(Trimmed(s)) == Category(name)
  {
    Marks();
    TrimsToItself(s);
    ClassifiedIff(s, name);
  }

  lemma SkipDialogRecognized(s: string, value: bool)
    requires s == SKIP_DIALOG + Flag(value)
    ensures Classified(Trimmed(s)) == SkipDialog(Flag(value))
  {
    Marks();
    TrimsToItself(s);
    ClassifiedIff(s, Flag(value));
  }

  lemma SkipCheckingRecognized(s: string)
    requires s == SKIP_CHECKING
    ensures Classified(Trimmed(s)) == SkipChecking
  {
    Marks();
    TrimsToItself(s);
    ClassifiedIff(s, "");
  }

  lemma SequentialRecognized(s: string)
    requires s == SEQUENTIAL
    ensures Classified(Trimmed(s)) == Sequential
  {
    Marks();
    TrimsToItself(s);
    ClassifiedIff(s, "");
  }

  lemma FirstLastRecognized(s: string)
    requires s == FIRST_LAST
    ensures Classified(Trimmed(s)) == FirstLastPiecePriority
  {
    Marks();
    TrimsToItself(s);
    ClassifiedIff(s, "");
  }

  lemma ParsedConcat(a: seq<string>, b: seq<string>)
    ensures Parsed(a + b) == Parsed(a) + Parsed(b)
  {
    forall i | 0 <= i < |a| + |b|
      ensures Parsed(a + b)[i] == (Parsed(a) + Parsed(b))[i]
    {
      assert (a + b)[i] == if i < |a| then a[i] else b[i - |a|];
    }
  }

  function ParamWhen(present: bool, p: Param): seq<Param> {
    if present then [p] else []
  }

  /** The options as the receiver sees them. */
  function OptionParams(c: CommandLine): seq<Param> {
    ParamWhen(c.savePath != "", SavePath(c.savePath))
    + ParamWhen(c.addPaused.Some?, AddPaused(Flag(c.addPaused == Some(true))))
    + ParamWhen(c.skipChecking, SkipChecking)
    + ParamWhen(c.category != "", Category(c.category))
    + ParamWhen(c.sequential, Sequential)
    + ParamWhen(c.firstLastPiecePriority, FirstLastPiecePriority)
    + ParamWhen(c.skipDialog.Some?, SkipDialog(Flag(c.skipDialog == Some(true))))
  }

  lemma WhenParsed(present: bool, param: string, p: Param)
    requires present ==> Classified(Trimmed(param)) == p
    ensures Parsed(When(present, param)) == ParamWhen(present, p)
  {
  }

  lemma OptionsParsed(c: CommandLine)
    requires NoTrailingSpace(c.savePath) && NoTrailingSpace(c.category)
    ensures Parsed(Options(c)) == OptionParams(c)
  {
    var on, skip := c.addPaused == Some(true), c.skipDialog == Some(true);
    var m1, m2, m3 := SAVE_PATH + c.savePath, ADD_PAUSED + Flag(on), SKIP_CHECKING;
    var m4, m5, m6, m7 := CATEGORY + c.category, SEQUENTIAL, FIRST_LAST, SKIP_DIALOG + Flag(skip);
    if c.savePath != "" { SavePathRecognized(m1, c.savePath); }
    if c.category != "" { CategoryRecognized(m4, c.category); }
    AddPausedRecognized(m2, on);
    SkipCheckingRecognized(m3);
    SequentialRecognized(m5);
    FirstLastRecognized(m6);
    SkipDialogRecognized(m7, skip);
    SevenParsed(c, m1, m2, m3, m4, m5, m6, m7);
  }

  lemma SevenParsed(c: CommandLine, m1: string, m2: string, m3: string, m4: string, m5: string, m6: string, m7: string)
    requires c.savePath != "" ==> Classified(Trimmed(m1)) == SavePath(c.savePath)
    requires Classified(Trimmed(m2)) == AddPaused(Flag(c.addPaused == Some(true)))
    requires Classified(Trimmed(m3)) == SkipChecking
    requires c.category != "" ==> Classified(Trimmed(m4)) == Category(c.category)
    requires Classified(Trimmed(m5)) == Sequential
    requires Classified(Trimmed(m6)) == FirstLastPiecePriority
    requires Classified(Trimmed(m7)) == SkipDialog(Flag(c.skipDialog == Some(true)))
    ensures Parsed(When(c.savePath != "", m1) + When(c.addPaused.Some?, m2) + When(c.skipChecking, m3)
                   + When(c.category != "", m4) + When(c.sequential, m5) + When(c.firstLastPiecePriority, m6)
                   + When(c.skipDialog.Some?, m7)) == OptionParams(c)
  {
    WhenParsed(c.savePath != "", m1, SavePath(c.savePath));
    WhenParsed(c.addPaused.Some?, m2, AddPaused(Flag(c.addPaused == Some(true))));
    WhenParsed(c.skipChecking, m3, SkipChecking);
    WhenParsed(c.category != "", m4, Category(c.category));
    WhenParsed(c.sequential, m5, Sequential);
    WhenParsed(c.firstLastPiecePriority, m6, FirstLastPiecePriority);
    WhenParsed(c.skipDialog.Some?, m7, SkipDialog(Flag(c.skipDialog == Some(true))));
    var a1, a2, a3 := When(c.savePath != "", m1), When(c.addPaused.Some?, m2), When(c.skipChecking, m3);
    var a4, a5 := When(c.category != "", m4), When(c.sequential, m5);
    var a6, a7 := When(c.firstLastPiecePriority, m6), When(c.skipDialog.Some?, m7);
    ParsedConcat(a1, a2);
    ParsedConcat(a1 + a2, a3);
    ParsedConcat(a1 + a2 + a3, a4);
    ParsedConcat(a1 + a2 + a3 + a4, a5);
    ParsedConcat(a1 + a2 + a3 + a4 + a5, a6);
    ParsedConcat(a1 + a2 + a3 + a4 + a5 + a6, a7);
  }

  /** After `before`, nothing is handed on and the settings are `st`. */
  ghost predicate Silent(before: seq<Param>, st: State, env: Env) {
    StateAfter(before, INITIAL, env) == st && Deliveries(before, INITIAL, env) == []
  }

  /** One more option. */
  lemma OptionThen(before: seq<Param>, st: State, present: bool, p: Param, next: State, env: Env)
    requires Silent(before, st, env) && !p.Source?
    requires next == if present then Applied(st, p, env) else st
    ensures Silent(before + ParamWhen(present, p), next, env)
  {
    DeliveriesConcat(before, ParamWhen(present, p), INITIAL, env);
    if present {
      assert StateAfter([p], st, env) == StateAfter([], Applied(st, p, env), env);
      assert Deliveries([p], st, env) == [] + Deliveries([], Applied(st, p, env), env);
    }
  }

  lemma FlagRead(flag: Option<bool>, env: Env)
    requires ReadsFlags(env)
    ensures flag.Some? ==> Some(env.toInt(Flag(flag == Some(true))) != 0) == flag
  {
    match flag
    case None =>
    case Some(value) =>
      assert (flag == Some(true)) == value;
  }

  /** The options set exactly the sender's settings and hand nothing on. */
  lemma OptionsApplied(c: CommandLine, env: Env)
    requires ReadsFlags(env)
    ensures Silent(OptionParams(c), State(ParamsOf(c), c.skipDialog), env)
  {
    var p1 := ParamWhen(c.savePath != "", SavePath(c.savePath));
    var p2 := p1 + ParamWhen(c.addPaused.Some?, AddPaused(Flag(c.addPaused == Some(true))));
    var p3 := p2 + ParamWhen(c.skipChecking, SkipChecking);
    var s1 := State(AddTorrentParams(c.savePath, None, false, "", false, false), None);
    var s2 := State(AddTorrentParams(c.savePath, c.addPaused, false, "", false, false), None);
    var s3 := State(AddTorrentParams(c.savePath, c.addPaused, c.skipChecking, "", false, false), None);
    FlagRead(c.addPaused, env);
    assert [] + p1 == p1;
    OptionThen([], INITIAL, c.savePath != "", SavePath(c.savePath), s1, env);
    OptionThen(p1, s1, c.addPaused.Some?, AddPaused(Flag(c.addPaused == Some(true))), s2, env);
    OptionThen(p2, s2, c.skipChecking, SkipChecking, s3, env);
    LaterOptions(c, p3, s3, env);
  }

  lemma LaterOptions(c: CommandLine, p3: seq<Param>, s3: State, env: Env)
    requires ReadsFlags(env) && Silent(p3, s3, env)
    requires s3 == State(AddTorrentParams(c.savePath, c.addPaused, c.skipChecking, "", false, false), None)
    ensures Silent(p3 + ParamWhen(c.category != "", Category(c.category)) + ParamWhen(c.sequential, Sequential)
                   + ParamWhen(c.firstLastPiecePriority, FirstLastPiecePriority)
                   + ParamWhen(c.skipDialog.Some?, SkipDialog(Flag(c.skipDialog == Some(true)))),
                   State(ParamsOf(c), c.skipDialog), env)
  {
    var p4 := p3 + ParamWhen(c.category != "", Category(c.category));
    var p5 := p4 + ParamWhen(c.sequential, Sequential);
    var p6 := p5 + ParamWhen(c.firstLastPiecePriority, FirstLastPiecePriority);
    var s4 := State(AddTorrentParams(c.savePath, c.addPaused, c.skipChecking, c.category, false, false), None);
    var s5 := State(AddTorrentParams(c.savePath, c.addPaused, c.skipChecking, c.category, c.sequential, false), None);
    var s6 := State(ParamsOf(c), None);
    FlagRead(c.skipDialog, env);
    OptionThen(p3, s3, c.category != "", Category(c.category), s4, env);
    OptionThen(p4, s4, c.sequential, Sequential, s5, env);
    OptionThen(p5, s5, c.firstLastPiecePriority, FirstLastPiecePriority, s6, env);
    OptionThen(p6, s6, c.skipDialog.Some?, SkipDialog(Flag(c.skipDialog == Some(true))),
               State(ParamsOf(c), c.skipDialog), env);
  }

  lemma {:induction false} SourcesDelivered(sources: seq<string>, ps: seq<Param>, st: State, env: Env)
    requires |ps| == |sources| && forall i :: 0 <= i < |ps| ==> ps[i] == Source(sources[i])
    ensures Deliveries(ps, st, env) == ToEach(sources, st.params, ShowDialog(st, env))
    decreases |sources|
  {
    if sources != [] {
      SourcesDelivered(sources[1..], ps[1..], st, env);
    }
  }

  /** Options and sources without '|' come out of the split as they went in, the empty sources lost. */
  lemma MessageSplit(c: CommandLine)
    requires Free(c.savePath, PARAMS_SEPARATOR) && Free(c.category, PARAMS_SEPARATOR)
    requires forall s :: s in c.torrents ==> Free(s, PARAMS_SEPARATOR)
    ensures SplitSkippingEmpty(Message(c), PARAMS_SEPARATOR) == Options(c) + NonEmpty(c.torrents)
  {
    OptionsFree(c);
    var parts := Options(c) + c.torrents;
    assert forall p :: p in parts ==> Free(p, PARAMS_SEPARATOR);
    NonEmptyConcat(Options(c), c.torrents);
    NonEmptyMembers(Options(c));
    if parts != [] {
      SplitOfJoin(parts, PARAMS_SEPARATOR);
    }
  }

  /** Parts that the join and the split leave alone. */
  predicate AllSendable(parts: seq<string>) {
    forall p :: p in parts ==> Free(p, PARAMS_SEPARATOR) && p != ""
  }

  lemma SendableWhen(before: seq<string>, present: bool, param: string)
    requires AllSendable(before) && (present ==> Free(param, PARAMS_SEPARATOR) && param != "")
    ensures AllSendable(before + When(present, param))
  {
  }

  lemma OptionsFree(c: CommandLine)
    requires Free(c.savePath, PARAMS_SEPARATOR) && Free(c.category, PARAMS_SEPARATOR)
    ensures AllSendable(Options(c))
  {
    MarksFree();
    var m2, m7 := ADD_PAUSED + Flag(c.addPaused == Some(true)), SKIP_DIALOG + Flag(c.skipDialog == Some(true));
    var a1 := When(c.savePath != "", SAVE_PATH + c.savePath);
    var a2 := a1 + When(c.addPaused.Some?, m2);
    var a3 := a2 + When(c.skipChecking, SKIP_CHECKING);
    var a4 := a3 + When(c.category != "", CATEGORY + c.category);
    var a5 := a4 + When(c.sequential, SEQUENTIAL);
    var a6 := a5 + When(c.firstLastPiecePriority, FIRST_LAST);
    assert [] + a1 == a1;
    SendableWhen([], c.savePath != "", SAVE_PATH + c.savePath);
    SendableWhen(a1, c.addPaused.Some?, m2);
    SendableWhen(a2, c.skipChecking, SKIP_CHECKING);
    SendableWhen(a3, c.category != "", CATEGORY + c.category);
    SendableWhen(a4, c.sequential, SEQUENTIAL);
    SendableWhen(a5, c.firstLastPiecePriority, FIRST_LAST);
    SendableWhen(a6, c.skipDialog.Some?, m7);
  }

  lemma MarksFree()
    ensures Free(SAVE_PATH, PARAMS_SEPARATOR) && Free(ADD_PAUSED, PARAMS_SEPARATOR)
    ensures Free(SKIP_CHECKING, PARAMS_SEPARATOR) && Free(CATEGORY, PARAMS_SEPARATOR)
    ensures Free(SEQUENTIAL, PARAMS_SEPARATOR) && Free(FIRST_LAST, PARAMS_SEPARATOR)
    ensures Free(SKIP_DIALOG, PARAMS_SEPARATOR)
    ensures SKIP_CHECKING != "" && SEQUENTIAL != "" && FIRST_LAST != ""
  {
  }

  lemma CleanSourcesParsed(sources: seq<string>)
    requires forall s :: s in sources ==> CleanSource(s)
    ensures forall i :: 0 <= i < |sources| ==> Parsed(sources)[i] == Source(sources[i])
  {
    forall i | 0 <= i < |sources|
      ensures Parsed(sources)[i] == Source(sources[i])
    {
      assert CleanSource(sources[i]);
      SourceIff(sources[i]);
    }
  }

  /** Up to empty sources, which are lost, a message with clean fields arrives as it was meant. */
  lemma ReceivedSources(c: CommandLine, env: Env)
    requires ReadsFlags(env)
    requires CleanText(c.savePath) && CleanText(c.category) && forall s :: s in c.torrents ==> CleanSource(s)
    ensures Received(c, env) == Meant(c.(torrents := NonEmpty(c.torrents)), env)
  {
    ReceivedOptions(c, env);
    var ps, st := Parsed(NonEmpty(c.torrents)), State(ParamsOf(c), c.skipDialog);
    NonEmptyMembers(c.torrents);
    CleanSourcesParsed(NonEmpty(c.torrents));
    SourcesDelivered(NonEmpty(c.torrents), ps, st, env);
    MeantByState(c, NonEmpty(c.torrents), env);
  }

  lemma MeantByState(c: CommandLine, sources: seq<string>, env: Env)
    ensures Meant(c.(torrents := sources), env) ==
            ToEach(sources, ParamsOf(c), ShowDialog(State(ParamsOf(c), c.skipDialog), env))
  {
  }

  /** The options first, then the sources that are left, with the settings they make. */
  lemma ReceivedOptions(c: CommandLine, env: Env)
    requires ReadsFlags(env)
    requires CleanText(c.savePath) && CleanText(c.category) && forall s :: s in c.torrents ==> CleanSource(s)
    ensures Received(c, env) == Deliveries(Parsed(NonEmpty(c.torrents)), State(ParamsOf(c), c.skipDialog), env)
  {
    MessageSplit(c);
    OptionsParsed(c);
    OptionsApplied(c, env);
    ParsedConcat(Options(c), NonEmpty(c.torrents));
    DeliveriesConcat(OptionParams(c), Parsed(NonEmpty(c.torrents)), INITIAL, env);
    assert [] + Deliveries(Parsed(NonEmpty(c.torrents)), State(ParamsOf(c), c.skipDialog), env)
           == Deliveries(Parsed(NonEmpty(c.torrents)), State(ParamsOf(c), c.skipDialog), env);
  }

  // ----- and only then --------------------------------------------------------------------

  /** What any list of '|'-free parameters can hand on: trimmed sources and settings without '|'. */
  ghost predicate CleanState(st: State) {
    CleanText(st.params.savePath) && CleanText(st.params.category)
  }

  predicate CleanParam(p: Param) {
    match p
    case SavePath(path) => CleanText(path)
    case Category(name) => CleanText(name)
    case Source(source) => CleanSource(source)
    case _ => true
  }

  lemma ClassifiedClean(t: string)
    requires CleanText(t) && Trimmed(t) == t
    ensures CleanParam(Classified(t))
  {
    SourceIff(t);
    if |t| >= 10 {
      CleanSuffix(t, 10);
    }
  }

  lemma TrimmedClean(param: string)
    requires Free(param, PARAMS_SEPARATOR)
    ensures CleanText(Trimmed(param)) && Trimmed(Trimmed(param)) == Trimmed(param)
  {
    TrimmedFixed(param);
  }

  lemma CleanSuffix(s: string, k: nat)
    requires CleanText(s) && k <= |s|
    ensures CleanText(s[k..])
  {
  }

  ghost predicate CleanDelivery(d: Delivery) {
    CleanSource(d.source) && CleanText(d.params.savePath) && CleanText(d.params.category)
  }

  lemma {:induction false} DeliveriesClean(ps: seq<Param>, st: State, env: Env)
    requires CleanState(st) && forall i :: 0 <= i < |ps| ==> CleanParam(ps[i])
    ensures forall i :: 0 <= i < |Deliveries(ps, st, env)| ==> CleanDelivery(Deliveries(ps, st, env)[i])
    decreases |ps|
  {
    if ps != [] {
      assert CleanParam(ps[0]);
      AppliedClean(st, ps[0], env);
      DeliveriesClean(ps[1..], Applied(st, ps[0], env), env);
      if ps[0].Source? {
        assert CleanDelivery(Delivery(ps[0].source, st.params, ShowDialog(st, env)));
      }
    }
  }

  lemma AppliedClean(st: State, p: Param, env: Env)
    requires CleanState(st) && CleanParam(p)
    ensures CleanState(Applied(st, p, env))
  {
  }

  lemma ParsedClean(params: seq<string>)
    requires forall p :: p in params ==> Free(p, PARAMS_SEPARATOR)
    ensures forall i :: 0 <= i < |params| ==> CleanParam(Parsed(params)[i])
  {
    forall i | 0 <= i < |params|
      ensures CleanParam(Parsed(params)[i])
    {
      assert params[i] in params;
      TrimmedClean(params[i]);
      ClassifiedClean(Trimmed(params[i]));
    }
  }

  // ----- a message without torrents ---------------------------------------------------------

  /** This part of a split message is handed on as a torrent. */
  predicate Bogus(part: string) {
    part != "" && !IsOption(Trimmed(part))
  }

  predicate HasBogus(parts: seq<string>) {
    parts != [] && (Bogus(parts[0]) || HasBogus(parts[1..]))
  }

  /** Behind a separator in the text, something comes that reads as a source. */
  predicate Spills(text: string) {
    HasBogus(Split(text, PARAMS_SEPARATOR)[1..])
  }

  /** One of the parameters contains such a part. */
  predicate SomeSpill(params: seq<string>) {
    exists p :: p in params && HasBogus(Split(p, PARAMS_SEPARATOR))
  }

  lemma {:induction false} HasBogusConcat(a: seq<string>, b: seq<string>)
    ensures HasBogus(a + b) <==> HasBogus(a) || HasBogus(b)
    decreases |a|
  {
    if a == [] {
      assert a + b == b;
    } else {
      assert (a + b)[0] == a[0] && (a + b)[1..] == a[1..] + b;
      HasBogusConcat(a[1..], b);
    }
  }

  lemma SomeSpillConcat(a: seq<string>, b: seq<string>)
    ensures SomeSpill(a + b) <==> SomeSpill(a) || SomeSpill(b)
  {
    assert forall p :: p in a + b <==> p in a || p in b;
  }

  lemma SpillOne(p: string)
    ensures SomeSpill([p]) <==> HasBogus(Split(p, PARAMS_SEPARATOR))
  {
    assert p in [p];
  }

  lemma {:induction false} JoinSpills(params: seq<string>)
    requires params != []
    ensures HasBogus(Split(Join(params, PARAMS_SEPARATOR), PARAMS_SEPARATOR)) <==> SomeSpill(params)
    decreases |params|
  {
    SpillOne(params[0]);
    if |params| == 1 {
      assert params == [params[0]];
    } else {
      assert params == [params[0]] + params[1..];
      SomeSpillConcat([params[0]], params[1..]);
      var rest := Join(params[1..], PARAMS_SEPARATOR);
      JoinSpills(params[1..]);
      SplitAt(params[0], rest, PARAMS_SEPARATOR);
      HasBogusConcat(Split(params[0], PARAMS_SEPARATOR), Split(rest, PARAMS_SEPARATOR));
    }
  }

  /** Something is handed on exactly when some part reads as a source. */
  lemma {:induction false} SourcesAreBogus(parts: seq<string>, st: State, env: Env)
    ensures Deliveries(Parsed(NonEmpty(parts)), st, env) != [] <==> HasBogus(parts)
    decreases |parts|
  {
    if parts != [] {
      var rest := NonEmpty(parts[1..]);
      if parts[0] == "" {
        assert NonEmpty(parts) == rest;
        SourcesAreBogus(parts[1..], st, env);
      } else {
        var p := Classified(Trimmed(parts[0]));
        SourceIff(Trimmed(parts[0]));
        assert NonEmpty(parts) == [parts[0]] + rest;
        ParsedConcat([parts[0]], rest);
        ParsedOne(parts[0]);
        DeliveriesConcat([p], Parsed(rest), st, env);
        DeliveriesOfOne(p, st, env);
        SourcesAreBogus(parts[1..], StateAfter([p], st, env), env);
      }
    }
  }

  lemma ParsedOne(param: string)
    ensures Parsed([param]) == [Classified(Trimmed(param))]
  {
  }

  lemma DeliveriesOfOne(p: Param, st: State, env: Env)
    ensures Deliveries([p], st, env) != [] <==> p.Source?
  {
    assert [p][1..] == [];
  }

  /** A parameter with a text of the user's spills exactly when the text does. */
  lemma TextSpills(mark: string, text: string)
    requires mark == SAVE_PATH || mark == CATEGORY
    ensures HasBogus(Split(mark + text, PARAMS_SEPARATOR)) <==> Spills(text)
  {
    MarkedIsOption(mark, Split(text, PARAMS_SEPARATOR)[0]);
    MarksFree();
    SplitPrefixed(mark, text, PARAMS_SEPARATOR);
    assert Split(mark + text, PARAMS_SEPARATOR)[1..] == Split(text, PARAMS_SEPARATOR)[1..];
  }

  lemma MarkedIsOption(mark: string, text: string)
    requires mark == SAVE_PATH || mark == CATEGORY
    ensures IsOption(Trimmed(mark + text))
  {
    MarkEnds(mark);
    TrimmedStarts(mark, text);
  }

  lemma MarkEnds(mark: string)
    requires mark == SAVE_PATH || mark == CATEGORY
    ensures mark != "" && !IsSpace(mark[0]) && !IsSpace(mark[|mark| - 1])
  {
    assert SAVE_PATH[9] == '=' && CATEGORY[9] == '=';
  }

  lemma FixedSpills(param: string)
    requires Free(param, PARAMS_SEPARATOR) && !Classified(Trimmed(param)).Source?
    ensures !HasBogus(Split(param, PARAMS_SEPARATOR))
  {
    SourceIff(Trimmed(param));
    SplitFree(param, PARAMS_SEPARATOR);
  }

  lemma InWhen(p: string, present: bool, param: string)
    ensures p in When(present, param) <==> present && p == param
  {
  }

  /** The options, one by one. */
  lemma OptionMembers(c: CommandLine, p: string)
    ensures p in Options(c) ==>
              || (c.savePath != "" && p == SAVE_PATH + c.savePath)
              || p == ADD_PAUSED + Flag(c.addPaused == Some(true)) || p == SKIP_CHECKING
              || (c.category != "" && p == CATEGORY + c.category)
              || p == SEQUENTIAL || p == FIRST_LAST || p == SKIP_DIALOG + Flag(c.skipDialog == Some(true))
    ensures c.savePath != "" && p == SAVE_PATH + c.savePath ==> p in Options(c)
    ensures c.category != "" && p == CATEGORY + c.category ==> p in Options(c)
  {
    InWhen(p, c.savePath != "", SAVE_PATH + c.savePath);
    InWhen(p, c.category != "", CATEGORY + c.category);
  }

  /** Exactly which options are printed, and as what. */
  lemma OptionsPrinted(c: CommandLine, p: string)
    ensures p in Options(c) <==>
            || (c.savePath != "" && p == "@savePath=" + c.savePath)
            || (c.addPaused.Some? && p == "@addPaused=" + if c.addPaused.value then "1" else "0")
            || (c.skipChecking && p == "@skipChecking")
            || (c.category != "" && p == "@category=" + c.category)
            || (c.sequential && p == "@sequential")
            || (c.firstLastPiecePriority && p == "@firstLastPiecePriority")
            || (c.skipDialog.Some? && p == "@skipDialog=" + if c.skipDialog.value then "1" else "0")
  {
    InWhen(p, c.savePath != "", SAVE_PATH + c.savePath);
    InWhen(p, c.addPaused.Some?, ADD_PAUSED + Flag(c.addPaused == Some(true)));
    InWhen(p, c.skipChecking, SKIP_CHECKING);
    InWhen(p, c.category != "", CATEGORY + c.category);
    InWhen(p, c.sequential, SEQUENTIAL);
    InWhen(p, c.firstLastPiecePriority, FIRST_LAST);
    InWhen(p, c.skipDialog.Some?, SKIP_DIALOG + Flag(c.skipDialog == Some(true)));
  }

  /** Of the options only the two texts can spill. */
  lemma OptionsSpill(c: CommandLine)
    ensures SomeSpill(Options(c)) <==> Spills(c.savePath) || Spills(c.category)
  {
    FixedOptions(c);
    TextSpills(SAVE_PATH, c.savePath);
    TextSpills(CATEGORY, c.category);
    EmptySpillsNothing();
    OptionMembers(c, SAVE_PATH + c.savePath);
    OptionMembers(c, CATEGORY + c.category);
    forall p | p in Options(c) && HasBogus(Split(p, PARAMS_SEPARATOR))
      ensures Spills(c.savePath) || Spills(c.category)
    {
      OptionMembers(c, p);
    }
  }

  lemma EmptySpillsNothing()
    ensures !Spills("")
  {
  }

  lemma FixedOptions(c: CommandLine)
    ensures !HasBogus(Split(ADD_PAUSED + Flag(c.addPaused == Some(true)), PARAMS_SEPARATOR))
    ensures !HasBogus(Split(SKIP_CHECKING, PARAMS_SEPARATOR)) && !HasBogus(Split(SEQUENTIAL, PARAMS_SEPARATOR))
    ensures !HasBogus(Split(FIRST_LAST, PARAMS_SEPARATOR))
    ensures !HasBogus(Split(SKIP_DIALOG + Flag(c.skipDialog == Some(true)), PARAMS_SEPARATOR))
  {
    MarksFree();
    var m2, m7 := ADD_PAUSED + Flag(c.addPaused == Some(true)), SKIP_DIALOG + Flag(c.skipDialog == Some(true));
    AddPausedRecognized(m2, c.addPaused == Some(true));
    FixedSpills(m2);
    SkipCheckingRecognized(SKIP_CHECKING);
    FixedSpills(SKIP_CHECKING);
    SequentialRecognized(SEQUENTIAL);
    FixedSpills(SEQUENTIAL);
    FirstLastRecognized(FIRST_LAST);
    FixedSpills(FIRST_LAST);
    SkipDialogRecognized(m7, c.skipDialog == Some(true));
    FixedSpills(m7);
  }

  /** Without torrents nothing is handed on if and only if no text spills. */
  lemma NothingReceivedIff(c: CommandLine, env: Env)
    requires c.torrents == []
    ensures Received(c, env) == [] <==> !Spills(c.savePath) && !Spills(c.category)
  {
    var parts := Split(Message(c), PARAMS_SEPARATOR);
    SourcesAreBogus(parts, INITIAL, env);
    OptionsSpill(c);
    assert Options(c) + c.torrents == Options(c);
    if Options(c) != [] {
      JoinSpills(Options(c));
    } else {
      assert parts == [""];
    }
  }

  /** A message is handed on exactly as meant if and only if, when it carries torrents, no field holds a
      '|', the save path and the category have no trailing space, and the sources are non-empty,
      trimmed and not option strings; and, when it carries none, nothing that reads as a source follows
      a '|' in the save path or the category. */
  lemma LosslessIff(c: CommandLine, env: Env)
    requires ReadsFlags(env)
    ensures Received(c, env) == Meant(c, env) <==>
            if c.torrents == [] then !Spills(c.savePath) && !Spills(c.category) else Transportable(c)
  {
    if c.torrents == [] {
      NothingReceivedIff(c, env);
      assert Meant(c, env) == [];
    } else {
      LosslessWithTorrents(c, env);
    }
  }

  lemma LosslessWithTorrents(c: CommandLine, env: Env)
    requires ReadsFlags(env) && c.torrents != []
    ensures Received(c, env) == Meant(c, env) <==> Transportable(c)
  {
    if Transportable(c) {
      ReceivedSources(c, env);
      NonEmptyMembers(c.torrents);
    }
    if Received(c, env) == Meant(c, env) {
      MeantClean(c, env);
      ReceivedSources(c, env);
      NonEmptyMembers(c.torrents);
      assert |NonEmpty(c.torrents)| == |Meant(c, env)| == |c.torrents|;
    }
  }

  /** What arrives is clean, so what was meant is, if it arrives. */
  lemma MeantClean(c: CommandLine, env: Env)
    requires c.torrents != [] && Received(c, env) == Meant(c, env)
    ensures CleanText(c.savePath) && CleanText(c.category) && forall s :: s in c.torrents ==> CleanSource(s)
  {
    ReceivedClean(c, env);
    var all := Meant(c, env);
    assert CleanDelivery(all[0]);
    forall i | 0 <= i < |c.torrents|
      ensures CleanSource(c.torrents[i])
    {
      assert CleanDelivery(all[i]);
    }
  }

  lemma ReceivedClean(c: CommandLine, env: Env)
    ensures forall i :: 0 <= i < |Received(c, env)| ==> CleanDelivery(Received(c, env)[i])
  {
    var params := SplitSkippingEmpty(Message(c), PARAMS_SEPARATOR);
    SplitParts(Message(c), PARAMS_SEPARATOR);
    NonEmptyMembers(Split(Message(c), PARAMS_SEPARATOR));
    ParsedClean(params);
    DeliveriesClean(Parsed(params), INITIAL, env);
  }

  // ----- messages that arrive before the application runs --------------------------------------

  /** What a delivery depends on. */
  datatype Setting = OfSavePath | OfPaused | OfSkipChecking | OfCategory | OfSequential | OfFirstLast | OfDialog

  function Sets(p: Param): Option<Setting> {
    match p
    case SavePath(_) => Some(OfSavePath)
    case AddPaused(_) => Some(OfPaused)
    case SkipChecking => Some(OfSkipChecking)
    case Category(_) => Some(OfCategory)
    case Sequential => Some(OfSequential)
    case FirstLastPiecePriority => Some(OfFirstLast)
    case SkipDialog(_) => Some(OfDialog)
    case Source(_) => None
  }

  /** Two states agree on a setting; for the dialog, on whether it is shown. */
  predicate Agree(f: Setting, a: State, b: State, env: Env) {
    match f
    case OfSavePath => a.params.savePath == b.params.savePath
    case OfPaused => a.params.addPaused == b.params.addPaused
    case OfSkipChecking => a.params.skipChecking == b.params.skipChecking
    case OfCategory => a.params.category == b.params.category
    case OfSequential => a.params.sequential == b.params.sequential
    case OfFirstLast => a.params.firstLastPiecePriority == b.params.firstLastPiecePriority
    case OfDialog => ShowDialog(a, env) == ShowDialog(b, env)
  }

  /** The option sets its setting to what it is without any option. */
  predicate SetsDefault(p: Param, env: Env) {
    match p
    case SavePath(path) => path == ""
    case Category(name) => name == ""
    case SkipDialog(number) => (env.toInt(number) != 0) == !env.dialogEnabled
    case _ => false
  }

  /** The last option for the setting, if there is one, sets the default. */
  predicate LeavesDefault(ps: seq<Param>, f: Setting, env: Env) {
    ps == [] ||
    var last := ps[|ps| - 1];
    if Sets(last) == Some(f) then SetsDefault(last, env) else LeavesDefault(ps[..|ps| - 1], f, env)
  }

  /** An option for the setting comes before any source. */
  predicate SetsFirst(ps: seq<Param>, f: Setting) {
    ps != [] && !ps[0].Source? && (Sets(ps[0]) == Some(f) || SetsFirst(ps[1..], f))
  }

  predicate HasSource(ps: seq<Param>) {
    exists i :: 0 <= i < |ps| && ps[i].Source?
  }

  /** Which settings a list of parameters leaves at their defaults can be read off it. */
  lemma {:induction false} LeavesDefaultIff(ps: seq<Param>, f: Setting, env: Env)
    ensures Agree(f, StateAfter(ps, INITIAL, env), INITIAL, env) <==> LeavesDefault(ps, f, env)
    decreases |ps|
  {
    if ps != [] {
      var init, last := ps[..|ps| - 1], ps[|ps| - 1];
      assert ps == init + [last];
      LeavesDefaultIff(init, f, env);
      DeliveriesConcat(init, [last], INITIAL, env);
      AfterOne(last, StateAfter(init, INITIAL, env), env);
      DefaultAfterOne(f, last, StateAfter(init, INITIAL, env), env);
    }
  }

  lemma DefaultAfterOne(f: Setting, p: Param, st: State, env: Env)
    ensures Agree(f, Applied(st, p, env), INITIAL, env) <==>
            if Sets(p) == Some(f) then SetsDefault(p, env) else Agree(f, st, INITIAL, env)
  {
  }

  lemma AfterOne(p: Param, st: State, env: Env)
    ensures StateAfter([p], st, env) == Applied(st, p, env)
  {
    assert [p][1..] == [];
  }

  /** One parameter makes two states agree on the setting it sets, and changes no other agreement. */
  lemma AgreeAfterOne(f: Setting, p: Param, a: State, b: State, env: Env)
    ensures Agree(f, Applied(a, p, env), Applied(b, p, env), env) <==> Sets(p) == Some(f) || Agree(f, a, b, env)
  {
  }

  /** From two states a list is handed on alike if and only if it has no source, or every setting they
      disagree on is set before the first one. */
  lemma {:induction false} HandedOnAlikeIff(ps: seq<Param>, a: State, b: State, env: Env)
    ensures Deliveries(ps, a, env) == Deliveries(ps, b, env) <==>
            !HasSource(ps) || forall f :: Agree(f, a, b, env) || SetsFirst(ps, f)
    decreases |ps|
  {
    if ps != [] {
      var p, rest := ps[0], ps[1..];
      assert HasSource(ps) <==> p.Source? || HasSource(rest) by { HasSourceStep(ps); }
      HandedOnAlikeIff(rest, Applied(a, p, env), Applied(b, p, env), env);
      if p.Source? {
        SameDeliveryIff(p.source, a, b, env);
        if forall f :: Agree(f, a, b, env) {
          assert forall f :: Agree(f, Applied(a, p, env), Applied(b, p, env), env);
        }
        assert Deliveries(ps, a, env)[0] == Delivery(p.source, a.params, ShowDialog(a, env));
        assert Deliveries(ps, b, env)[0] == Delivery(p.source, b.params, ShowDialog(b, env));
        assert Deliveries(ps, a, env)[1..] == Deliveries(rest, a, env);
        assert Deliveries(ps, b, env)[1..] == Deliveries(rest, b, env);
      } else {
        forall f
          ensures Agree(f, a, b, env) || SetsFirst(ps, f) <==>
                  Agree(f, Applied(a, p, env), Applied(b, p, env), env) || SetsFirst(rest, f)
        {
          AgreeAfterOne(f, p, a, b, env);
        }
        assert Deliveries(ps, a, env) == Deliveries(rest, Applied(a, p, env), env);
        assert Deliveries(ps, b, env) == Deliveries(rest, Applied(b, p, env), env);
      }
    }
  }

  lemma HasSourceStep(ps: seq<Param>)
    requires ps != []
    ensures HasSource(ps) <==> ps[0].Source? || HasSource(ps[1..])
  {
    if HasSource(ps) && !ps[0].Source? {
      var i :| 0 <= i < |ps| && ps[i].Source?;
      assert ps[1..][i - 1].Source?;
    }
    if HasSource(ps[1..]) {
      var i :| 0 <= i < |ps[1..]| && ps[1..][i].Source?;
      assert ps[i + 1].Source?;
    }
  }

  lemma SameDeliveryIff(source: string, a: State, b: State, env: Env)
    ensures Delivery(source, a.params, ShowDialog(a, env)) == Delivery(source, b.params, ShowDialog(b, env)) <==>
            forall f :: Agree(f, a, b, env)
  {
    if forall f :: Agree(f, a, b, env) {
      assert Agree(OfSavePath, a, b, env) && Agree(OfPaused, a, b, env) && Agree(OfSkipChecking, a, b, env);
      assert Agree(OfCategory, a, b, env) && Agree(OfSequential, a, b, env) && Agree(OfFirstLast, a, b, env);
      assert Agree(OfDialog, a, b, env);
    }
  }

  /** Queued together, two messages are handed on as separately if and only if the second has no source,
      or each setting is left at its default by the first or is set by the second before its first
      source. */
  lemma QueuedTogether(first: seq<string>, second: seq<string>, env: Env)
    ensures Deliveries(Parsed(first + second), INITIAL, env) ==
            Deliveries(Parsed(first), INITIAL, env) + Deliveries(Parsed(second), INITIAL, env)
            <==> !HasSource(Parsed(second))
                 || forall f :: LeavesDefault(Parsed(first), f, env) || SetsFirst(Parsed(second), f)
  {
    ParsedConcat(first, second);
    DeliveriesConcat(Parsed(first), Parsed(second), INITIAL, env);
    var left := StateAfter(Parsed(first), INITIAL, env);
    SameTail(Deliveries(Parsed(first), INITIAL, env), Deliveries(Parsed(second), left, env),
             Deliveries(Parsed(second), INITIAL, env));
    HandedOnAlikeIff(Parsed(second), left, INITIAL, env);
    forall f
      ensures Agree(f, left, INITIAL, env) <==> LeavesDefault(Parsed(first), f, env)
    {
      LeavesDefaultIff(Parsed(first), f, env);
    }
  }

  lemma SameTail<T>(a: seq<T>, b: seq<T>, b': seq<T>)
    ensures a + b == a + b' <==> b == b'
  {
    assert (a + b)[|a|..] == b && (a + b')[|a|..] == b';
  }

  /** A first message of sources only leaves nothing behind. */
  lemma {:induction false} SourcesLeaveNothing(ps: seq<Param>, st: State, env: Env)
    requires forall i :: 0 <= i < |ps| ==> ps[i].Source?
    ensures StateAfter(ps, st, env) == st
    decreases |ps|
  {
    if ps != [] {
      SourcesLeaveNothing(ps[1..], st, env);
    }
  }

  /** But an option of the first message is applied to the second one's torrents too. */
  lemma QueueLeaksOptions(first: seq<string>, second: seq<string>, a: string, b: string, env: Env)
    requires Parsed(first) == [SkipChecking, Source(a)] && Parsed(second) == [Source(b)]
    ensures Deliveries(Parsed(first + second), INITIAL, env) !=
            Deliveries(Parsed(first), INITIAL, env) + Deliveries(Parsed(second), INITIAL, env)
  {
    QueuedTogether(first, second, env);
    assert Parsed(second)[0].Source?;
    LeftBehind(a, env);
  }

  /** Such messages exist: "@skipChecking" and any clean source, then any clean source. */
  lemma LeakExample(option: string, a: string, b: string)
    requires option == SKIP_CHECKING && CleanSource(a) && CleanSource(b)
    ensures Parsed([option, a]) == [SkipChecking, Source(a)] && Parsed([b]) == [Source(b)]
  {
    ParsedTwo(option, a);
    SkipCheckingRecognized(option);
    ParsedSource(a);
    ParsedSource(b);
    assert Parsed([a])[0] == Classified(Trimmed(a));
  }

  lemma ParsedSource(a: string)
    requires CleanSource(a)
    ensures Parsed([a]) == [Source(a)]
  {
    CleanSourcesParsed([a]);
  }

  lemma ParsedTwo(x: string, y: string)
    ensures Parsed([x, y]) == [Classified(Trimmed(x)), Classified(Trimmed(y))]
  {
  }

  lemma LeftBehind(a: string, env: Env)
    ensures !LeavesDefault([SkipChecking, Source(a)], OfSkipChecking, env)
  {
    assert [SkipChecking, Source(a)][..1] == [SkipChecking];
  }
}
