/** The session bookkeeping of `DialogChecker` (byu_pytest_utils/dialog.py):
    the observed-output buffer with its length cap, the queue of inputs
    popped from the front, the formatting of `print`, the decisions of the
    `run_exec` loop over the events its reader thread delivers, and the
    final scoring of the output or of the exception text. */
module DialogSession {
  import opened TextUtil
  import InputMarkers
  import opened DialogGroups
  import opened DialogScore

  const TooMuchText := "the program has printed too much text"
  const MoreInputsThanExpected := "input() called more times than expected"
  const NothingToGive := "the program is blocked, which probably means that it's expecting an input; however, there's no input to give"
  const NoNewOutput := "the program has been given input, but has not produced any new output"

  /** `_EXEC_DEFAULT_MAX_OUTPUT_LEN`. */
  const DefaultMaxOutputLen: nat := 2000

  type Stats = map<string, ScoreRecord>

  /** The two fields the session changes. */
  datatype Session = Session(observed: string, inputs: seq<string>)

  /** `max_output_len is not None and len(self.observed_output) > max_output_len`. */
  predicate OverCap(s: string, cap: Option<nat>) {
    cap.Some? && |s| > cap.value
  }

  // ---------------------------------------------------------------------
  // One call at a time.

  /** `_consume_output`: the text is appended before the cap is checked. */
  function Consume(s: Session, text: string, cap: Option<nat>): (Session, Result<(), string>) {
    var s' := Session(s.observed + text, s.inputs);
    (s', if OverCap(s'.observed, cap) then Err(TooMuchText) else Ok(()))
  }

  /** `_py_input`: the prompt is printed, then the first input is removed
      from the queue and echoed with a newline. */
  function TakeInput(s: Session, prompt: string): (Session, Result<string, string>) {
    var s1 := Consume(s, prompt, None).0;
    if s1.inputs == [] then (s1, Err(MoreInputsThanExpected))
    else (Consume(Session(s1.observed, s1.inputs[1..]), s1.inputs[0] + "\n", None).0, Ok(s1.inputs[0]))
  }

  /** The text `_py_print` appends: the values, already converted by `str`,
      joined by `sep`, then `end`. */
  function Printed(values: seq<string>, sep: string, end: string): string {
    Join(sep, values) + end
  }

  /** `_exec_give_input`: on success, whether stdin is closed afterwards. */
  function GiveInput(s: Session, close: bool, cap: Option<nat>): (Session, Result<bool, string>) {
    if s.inputs == [] then (s, Err(NothingToGive))
    else
      var (s', c) := Consume(Session(s.observed, s.inputs[1..]), s.inputs[0] + "\n", cap);
      (s', if c.Err? then Err(c.error) else Ok(s'.inputs == [] && close))
  }

  // ---------------------------------------------------------------------
  // The loop of `run_exec`.

  /** What the reader yields: a chunk of output, or `None` when nothing
      arrived before the wait ran out. The sequence ends when the program
      has exited and its output is drained. */
  datatype Event = Chunk(text: string) | Timeout

  /** The loop's state: the session, `already_gave_input`, and whether the
      loop closed the program's stdin. */
  datatype Loop = Loop(session: Session, gaveInput: bool, stdinClosed: bool)

  /** How the loop ends: the events run out, it breaks, or it raises. */
  datatype Exit = Exhausted | Break | Raise(message: string)

  /** One iteration: the new state, and the exit if the loop stops here. */
  function LoopStep(l: Loop, ev: Event, close: bool, cap: Option<nat>): (Loop, Option<Exit>) {
    match ev
    case Chunk(text) =>
      var (s, c) := Consume(l.session, text, cap);
      (Loop(s, false, l.stdinClosed), if c.Err? then Some(Raise(c.error)) else None)
    case Timeout =>
      if l.gaveInput then (l, Some(if l.stdinClosed then Break else Raise(NoNewOutput)))
      else
        var (s, r) := GiveInput(l.session, close, cap);
        (Loop(s, true, l.stdinClosed || (r.Ok? && r.value)), if r.Err? then Some(Raise(r.error)) else None)
  }

  /** The loop over the events: the final state, the exit, and how many
      events it read. */
  function RunFrom(l: Loop, events: seq<Event>, close: bool, cap: Option<nat>): (r: (Loop, Exit, nat))
    decreases |events|
    ensures r.2 <= |events|
    ensures r.1.Exhausted? ==> r.2 == |events|
    ensures !r.1.Exhausted? ==> 1 <= r.2
  {
    if events == [] then (l, Exhausted, 0)
    else
      var (l', exit) := LoopStep(l, events[0], close, cap);
      if exit.Some? then (l', exit.value, 1)
      else
        var (f, x, n) := RunFrom(l', events[1..], close, cap);
        (f, x, n + 1)
  }

  /** A run whose events are counted from `i` on. */
  function Shift(r: (Loop, Exit, nat), i: nat): (Loop, Exit, nat) {
    (r.0, r.1, r.2 + i)
  }

  /** Taking one more step of the loop from `l` at event `i`, where the run
      from `start` is the run from `l` shifted by `i` events. */
  lemma RunCompose(start: Loop, l: Loop, events: seq<Event>, i: nat, close: bool, cap: Option<nat>)
    requires i < |events|
    requires RunFrom(start, events, close, cap) == Shift(RunFrom(l, events[i..], close, cap), i)
    ensures var (l', exit) := LoopStep(l, events[i], close, cap);
            (exit.None? ==> RunFrom(start, events, close, cap) == Shift(RunFrom(l', events[i + 1..], close, cap), i + 1)) &&
            (exit.Some? ==> RunFrom(start, events, close, cap) == (l', exit.value, i + 1))
  {
    assert events[i..][1..] == events[i + 1..];
    assert events[i..][0] == events[i];
  }

  /** The state the loop starts from. */
  function Start(s: Session): Loop {
    Loop(s, false, false)
  }

  // ---------------------------------------------------------------------
  // A script run in-process.

  /** What a script does through the intercepted built-ins. */
  datatype Call = AskInput(prompt: string) | PrintValues(values: seq<string>, sep: string, end: string)

  /** The calls in order, until `input()` raises. */
  function ScriptFrom(s: Session, calls: seq<Call>): (Session, Option<string>)
    decreases |calls|
  {
    if calls == [] then (s, None)
    else match calls[0]
      case AskInput(prompt) =>
        var (s', r) := TakeInput(s, prompt);
        if r.Err? then (s', Some(r.error)) else ScriptFrom(s', calls[1..])
      case PrintValues(values, sep, end) =>
        ScriptFrom(Consume(s, Printed(values, sep, end), None).0, calls[1..])
  }

  /** The number of `input()` calls. */
  function InputCount(calls: seq<Call>): nat {
    if calls == [] then 0 else (if calls[0].AskInput? then 1 else 0) + InputCount(calls[1..])
  }

  /** A script of prints only asks for no input. */
  lemma {:induction false} NoInputs(calls: seq<Call>)
    requires forall k :: 0 <= k < |calls| ==> calls[k].PrintValues?
    ensures InputCount(calls) == 0
    decreases |calls|
  {
    if calls != [] {
      NoInputs(calls[1..]);
    }
  }

  /** A script of prints under a checker that appends each print to the
      output and stops at the first output that is not a prefix of the
      expected text: the output, and whether every check passed. */
  function PrintsRun(obs: string, exp: string, calls: seq<Call>): (string, bool)
    requires forall k :: 0 <= k < |calls| ==> calls[k].PrintValues?
    decreases |calls|
  {
    if calls == [] then (obs, true)
    else
      var o := obs + Printed(calls[0].values, calls[0].sep, calls[0].end);
      if !(o <= exp) then (o, false) else PrintsRun(o, exp, calls[1..])
  }

  /** What the script shows when its `input()` calls are answered from
      `answers` in order. */
  function Transcript(calls: seq<Call>, answers: seq<string>): string
    requires InputCount(calls) <= |answers|
  {
    if calls == [] then ""
    else match calls[0]
      case AskInput(prompt) => prompt + answers[0] + "\n" + Transcript(calls[1..], answers[1..])
      case PrintValues(values, sep, end) => Join(sep, values) + end + Transcript(calls[1..], answers)
  }

  /** Run from a prefix of the expected text, a script of prints passes
      every check exactly when it leaves the output a prefix, and then it
      has printed its whole transcript. */
  lemma {:induction false} PrintsRunPasses(obs: string, exp: string, calls: seq<Call>)
    requires forall k :: 0 <= k < |calls| ==> calls[k].PrintValues?
    requires obs <= exp
    ensures InputCount(calls) == 0
    ensures var r := PrintsRun(obs, exp, calls);
            (r.1 <==> r.0 <= exp) && (r.1 ==> r.0 == obs + Transcript(calls, []))
    decreases |calls|
  {
    NoInputs(calls);
    if calls != [] {
      var o := obs + Printed(calls[0].values, calls[0].sep, calls[0].end);
      if o <= exp {
        PrintsRunPasses(o, exp, calls[1..]);
        assert o + Transcript(calls[1..], []) == obs + Transcript(calls, []);
      }
    }
  }

  /** Wherever a script of prints stops, its output is a prefix of the
      output before it followed by its whole transcript. */
  lemma {:induction false} PrintsRunPrefix(obs: string, exp: string, calls: seq<Call>)
    requires forall k :: 0 <= k < |calls| ==> calls[k].PrintValues?
    ensures InputCount(calls) == 0
    ensures PrintsRun(obs, exp, calls).0 <= obs + Transcript(calls, [])
    decreases |calls|
  {
    NoInputs(calls);
    if calls != [] {
      var o := obs + Printed(calls[0].values, calls[0].sep, calls[0].end);
      NoInputs(calls[1..]);
      assert o + Transcript(calls[1..], []) == obs + Transcript(calls, []);
      if o <= exp {
        PrintsRunPrefix(o, exp, calls[1..]);
      }
    }
  }

  /** Run from a prefix of the expected text, a script of prints ends on
      that text with every check passed exactly when the output before it
      and its transcript make up the expected text. */
  lemma PrintsRunExact(obs: string, exp: string, calls: seq<Call>)
    requires forall k :: 0 <= k < |calls| ==> calls[k].PrintValues?
    requires obs <= exp
    ensures InputCount(calls) == 0
    ensures var r := PrintsRun(obs, exp, calls);
            (r.1 && r.0 == exp) <==> obs + Transcript(calls, []) == exp
  {
    PrintsRunPasses(obs, exp, calls);
    PrintsRunPrefix(obs, exp, calls);
  }

  // ---------------------------------------------------------------------
  // Scoring at the end.

  /** `f"Exception: {ex}\n{traceback.format_exc()}"`, the trace given. */
  function ExceptionText(message: string, traceback: string): string {
    "Exception: " + message + "\n" + traceback
  }

  /** The group's symbol in the source: `.` or the letters from `a`. */
  function Symbol(id: GroupId): char {
    match id
    case Default => '.'
    case Region(k) =>
      var c := 0x61 + k;
      if c < 0xD800 || 0xE000 <= c < 0x110000 then c as char else '\U{FFFD}'
  }

  /** `str(ex)` of the exceptions `_score_output` raises. */
  function ErrorText(e: ScoreError): string {
    match e
    case TooManyGaps => "Too many gaps in expected output"
    case MissingGroup(id) => "'" + [Symbol(id)] + "'"
  }

  /** The end of `run_script` and `run_exec`: the output is scored unless
      something raised; what raised, in the loop or in the scoring, is
      scored as the exception text. An exception while scoring that text
      leaves the method. */
  function Outcome(g: Groups, failure: Option<string>, observed: string, traceback: string): Result<Stats, ScoreError>
    requires Keyed(g)
  {
    match failure
    case Some(m) => Score(g, ExceptionText(m, traceback))
    case None =>
      match Score(g, observed)
      case Ok(stats) => Ok(stats)
      case Err(e) => Score(g, ExceptionText(ErrorText(e), traceback))
  }

  /** The exit of the loop as the failure `Outcome` scores. */
  function FailureOf(x: Exit): Option<string> {
    if x.Raise? then Some(x.message) else None
  }

  // ---------------------------------------------------------------------
  // What the loop guarantees.

  /** The output only grows, and the inputs are taken from the front of
      the queue: what remains is a suffix of it. */
  lemma {:induction false} RunKeepsOrder(l: Loop, events: seq<Event>, close: bool, cap: Option<nat>)
    ensures Grows(l.session, RunFrom(l, events, close, cap).0.session)
    decreases |events|
  {
    if events != [] {
      var (l', exit) := LoopStep(l, events[0], close, cap);
      StepKeepsOrder(l, events[0], close, cap);
      if exit.None? {
        RunKeepsOrder(l', events[1..], close, cap);
        GrowsTransitive(l.session, l'.session, RunFrom(l', events[1..], close, cap).0.session);
      }
    }
  }

  /** `b` comes from `a` by appending output and taking inputs from the
      front of the queue. */
  predicate Grows(a: Session, b: Session) {
    a.observed <= b.observed &&
    |b.inputs| <= |a.inputs| && b.inputs == a.inputs[|a.inputs| - |b.inputs|..]
  }

  lemma StepKeepsOrder(l: Loop, ev: Event, close: bool, cap: Option<nat>)
    ensures Grows(l.session, LoopStep(l, ev, close, cap).0.session)
  {
    var s := l.session.inputs;
    if s != [] {
      assert s[1..] == s[|s| - |s[1..]|..];
    }
    assert s == s[|s| - |s|..];
  }

  lemma GrowsTransitive(a: Session, b: Session, c: Session)
    requires Grows(a, b) && Grows(b, c)
    ensures Grows(a, c)
  {
    assert c.inputs == a.inputs[|a.inputs| - |c.inputs|..];
  }

  /** Starting within the cap, the loop raises "printed too much text"
      exactly when the output ends over the cap: a loop that ends without
      raising it leaves at most `max_output_len` characters. */
  lemma {:induction false} RunWithinCap(l: Loop, events: seq<Event>, close: bool, cap: Option<nat>)
    requires !OverCap(l.session.observed, cap)
    ensures var (f, x, n) := RunFrom(l, events, close, cap);
            x == Raise(TooMuchText) <==> OverCap(f.session.observed, cap)
    decreases |events|
  {
    assert NoNewOutput != TooMuchText && NothingToGive != TooMuchText;
    if events != [] {
      var (l', exit) := LoopStep(l, events[0], close, cap);
      if exit.None? {
        RunWithinCap(l', events[1..], close, cap);
      }
    }
  }

  /** The loop stops for want of new output only on a timeout that follows
      a timeout answered with an input: two in a row, or one when the flag
      was already set. */
  lemma {:induction false} RunStalls(l: Loop, events: seq<Event>, close: bool, cap: Option<nat>)
    ensures var (f, x, n) := RunFrom(l, events, close, cap);
            (x.Break? || x == Raise(NoNewOutput)) ==>
              events[n - 1] == Timeout && (if n >= 2 then events[n - 2] == Timeout else l.gaveInput)
    decreases |events|
  {
    assert NoNewOutput != TooMuchText && NoNewOutput != NothingToGive;
    if events != [] {
      var (l', exit) := LoopStep(l, events[0], close, cap);
      if exit.None? {
        RunStalls(l', events[1..], close, cap);
      }
    }
  }

  /** The loop runs out of inputs only on a timeout, with the queue empty;
      it breaks only once it closed stdin, which it does only when asked to
      and with the queue empty. */
  lemma {:induction false} RunEndsOnTimeout(l: Loop, events: seq<Event>, close: bool, cap: Option<nat>)
    requires ClosedWhenDone(l, close)
    ensures var (f, x, n) := RunFrom(l, events, close, cap);
            (x == Raise(NothingToGive) ==> events[n - 1] == Timeout && f.session.inputs == []) &&
            (x.Break? ==> close && f.session.inputs == [])
    decreases |events|
  {
    if events != [] {
      var (l', exit) := LoopStep(l, events[0], close, cap);
      StepEndsOnTimeout(l, events[0], close, cap);
      if exit.None? {
        RunEndsOnTimeout(l', events[1..], close, cap);
      }
    }
  }

  /** The loop closes stdin only when asked to and with the queue empty. */
  predicate ClosedWhenDone(l: Loop, close: bool) {
    l.stdinClosed ==> close && l.session.inputs == []
  }

  lemma StepEndsOnTimeout(l: Loop, ev: Event, close: bool, cap: Option<nat>)
    requires ClosedWhenDone(l, close)
    ensures var (l', exit) := LoopStep(l, ev, close, cap);
            ClosedWhenDone(l', close) &&
            (exit == Some(Raise(NothingToGive)) ==> ev == Timeout && l'.session.inputs == []) &&
            (exit == Some(Break) ==> close && l'.session.inputs == [])
  {
    assert NothingToGive != TooMuchText;
  }

  /** From the loop's start: a stall needs two timeouts in a row. */
  lemma StallNeedsTwoTimeouts(s: Session, events: seq<Event>, close: bool, cap: Option<nat>)
    ensures var (f, x, n) := RunFrom(Start(s), events, close, cap);
            (x.Break? || x == Raise(NoNewOutput)) ==>
              2 <= n && events[n - 2] == Timeout && events[n - 1] == Timeout
  {
    RunStalls(Start(s), events, close, cap);
  }

  // ---------------------------------------------------------------------
  // What a script run guarantees.

  /** A script's `input()` calls raise exactly when they outnumber the
      inputs of the dialog; otherwise they take the first inputs in order
      and the output is the transcript of the calls with those answers. */
  lemma {:induction false} ScriptInputs(s: Session, calls: seq<Call>)
    ensures var (f, err) := ScriptFrom(s, calls);
            (err.None? <==> InputCount(calls) <= |s.inputs|) &&
            (err.None? ==> f.inputs == s.inputs[InputCount(calls)..] &&
                           f.observed == s.observed + Transcript(calls, s.inputs)) &&
            (err.Some? ==> err == Some(MoreInputsThanExpected) && f.inputs == [])
    decreases |calls|
  {
    if calls != [] {
      match calls[0]
      case AskInput(prompt) =>
        if s.inputs != [] {
          var s' := TakeInput(s, prompt).0;
          ScriptInputs(s', calls[1..]);
          var (f, err) := ScriptFrom(s', calls[1..]);
          if err.None? {
            assert s.inputs[1..][InputCount(calls[1..])..] == s.inputs[InputCount(calls)..];
            assert f.observed == s.observed + Transcript(calls, s.inputs) by {
              assert s'.observed == s.observed + (prompt + s.inputs[0] + "\n");
            }
          }
        }
      case PrintValues(values, sep, end) =>
        var s' := Consume(s, Printed(values, sep, end), None).0;
        ScriptInputs(s', calls[1..]);
    }
  }

  /** The scoring of an output identical to the expected one passes every
      group with full marks. */
  lemma ExpectedOutputPasses(g: Groups, traceback: string)
    requires Parsed(g) && Gap !in g.expected
    requires forall k :: 0 <= k <= g.count ==> IdAt(k) in g.sequence
    ensures Outcome(g, None, g.expected, traceback).Ok?
    ensures var stats := Outcome(g, None, g.expected, traceback).value;
            forall name :: name in stats ==> stats[name].passed && stats[name].score == stats[name].maxScore
  {
    IdenticalOutputPasses(g);
  }

  /** A script whose transcript, answered from the dialog's inputs, is the
      expected output, and which raises nothing, passes every group. */
  lemma MatchingScriptPasses(g: Groups, inputs: seq<string>, calls: seq<Call>, traceback: string)
    requires Parsed(g) && Gap !in g.expected
    requires forall k :: 0 <= k <= g.count ==> IdAt(k) in g.sequence
    requires InputCount(calls) <= |inputs| && Transcript(calls, inputs) == g.expected
    ensures var (f, err) := ScriptFrom(Session("", inputs), calls);
            err.None? && Outcome(g, None, f.observed, traceback).Ok? &&
            var stats := Outcome(g, None, f.observed, traceback).value;
            forall name :: name in stats ==> stats[name].passed && stats[name].score == stats[name].maxScore
  {
    ScriptInputs(Session("", inputs), calls);
    assert ScriptFrom(Session("", inputs), calls).0.observed == g.expected;
    ExpectedOutputPasses(g, traceback);
  }

  // ---------------------------------------------------------------------
  // The object.

  class DialogChecker {
    const groups: Groups
    var inputs: seq<string>
    var observedOutput: string

    function State(): Session
      reads this
    {
      Session(observedOutput, inputs)
    }

    /** What the constructor leaves: both group maps keyed as
        `_extract_groups` keys them. */
    predicate Valid() {
      Parsed(groups)
    }

    constructor Init(inputs: seq<string>, groups: Groups)
      ensures this.inputs == inputs && this.groups == groups && observedOutput == ""
    {
      this.inputs := inputs;
      this.groups := groups;
      observedOutput := "";
    }

    /** `DialogChecker(...)` on the text of a dialog file: the inputs are
        taken out, then the groups; an error in the groups propagates. */
    static method Load(text: string) returns (r: Result<DialogChecker, GroupsError>)
      ensures var (inputs, shown) := InputMarkers.ExtractInput(text, true);
              (r.Err? <==> Extract(shown).Err?) &&
              (r.Err? ==> r.error == Extract(shown).error) &&
              (r.Ok? ==> fresh(r.value) && r.value.Valid() && r.value.inputs == inputs &&
                         Extract(shown) == Ok(r.value.groups) && r.value.observedOutput == "")
    {
      var (inputs, shown) := InputMarkers.ExtractInput(text, true);
      var groups := ExtractGroups(shown);
      if groups.Err? {
        return Err(groups.error);
      }
      ExtractParsed(shown);
      var c := new DialogChecker.Init(inputs, groups.value);
      r := Ok(c);
    }

    method ConsumeOutput(printedText: string, maxOutputLen: Option<nat>) returns (r: Result<(), string>)
      modifies this
      ensures (State(), r) == Consume(old(State()), printedText, maxOutputLen)
    {
      observedOutput := observedOutput + printedText;
      if maxOutputLen.Some? && |observedOutput| > maxOutputLen.value {
        return Err(TooMuchText);
      }
      r := Ok(());
    }

    method PyInput(prompt: string) returns (r: Result<string, string>)
      modifies this
      ensures (State(), r) == TakeInput(old(State()), prompt)
    {
      var _ := ConsumeOutput(prompt, None);
      if inputs == [] {
        return Err(MoreInputsThanExpected);
      }
      var inputText := inputs[0];
      inputs := inputs[1..];
      var _ := ConsumeOutput(inputText + "\n", None);
      r := Ok(inputText);
    }

    method PyPrint(values: seq<string>, sep: string := " ", end: string := "\n")
      modifies this
      ensures State() == Consume(old(State()), Printed(values, sep, end), None).0
    {
      var _ := ConsumeOutput(Join(sep, values) + end, None);
    }

    /** `_exec_give_input`; the write to the program's stdin is not part
        of the model, only whether it is closed afterwards. */
    method ExecGiveInput(close: bool, maxOutputLen: Option<nat>) returns (r: Result<bool, string>)
      modifies this
      ensures (State(), r) == GiveInput(old(State()), close, maxOutputLen)
    {
      if inputs == [] {
        return Err(NothingToGive);
      }
      var inputText := inputs[0] + "\n";
      inputs := inputs[1..];
      var c := ConsumeOutput(inputText, maxOutputLen);
      if c.Err? {
        return Err(c.error);
      }
      r := Ok(inputs == [] && close);
    }

    /** One iteration of the loop of `run_exec`. */
    method Step(ev: Event, gave: bool, closed: bool, close: bool, maxOutputLen: Option<nat>)
      returns (gave': bool, closed': bool, exit: Option<Exit>)
      modifies this
      ensures (Loop(State(), gave', closed'), exit) == LoopStep(Loop(old(State()), gave, closed), ev, close, maxOutputLen)
    {
      gave', closed', exit := gave, closed, None;
      match ev {
        case Chunk(text) =>
          gave' := false;
          var c := ConsumeOutput(text, maxOutputLen);
          if c.Err? {
            exit := Some(Raise(c.error));
          }
        case Timeout =>
          if gave {
            exit := Some(if closed then Break else Raise(NoNewOutput));
          } else {
            gave' := true;
            var r := ExecGiveInput(close, maxOutputLen);
            if r.Err? {
              exit := Some(Raise(r.error));
            } else if r.value {
              closed' := true;
            }
          }
      }
    }

    /** The try block of `run_exec` without the process: the loop over the
        events, then the scoring. */
    method RunExec(events: seq<Event>, close: bool, maxOutputLen: Option<nat>, traceback: string)
      returns (stats: Result<Stats, ScoreError>)
      requires Valid()
      modifies this
      ensures var (f, x, _) := RunFrom(Start(old(State())), events, close, maxOutputLen);
              State() == f.session && stats == Outcome(groups, FailureOf(x), f.session.observed, traceback)
    {
      ghost var start := Start(State());
      ghost var result := RunFrom(start, events, close, maxOutputLen);
      var gave, closed := false, false;
      var exit: Option<Exit> := None;
      var i := 0;
      while i < |events| && exit.None?
        invariant i <= |events|
        invariant exit.None? ==> result == Shift(RunFrom(Loop(State(), gave, closed), events[i..], close, maxOutputLen), i)
        invariant exit.Some? ==> result == (Loop(State(), gave, closed), exit.value, i)
        decreases |events| - i
      {
        ghost var before := Loop(State(), gave, closed);
        gave, closed, exit := Step(events[i], gave, closed, close, maxOutputLen);
        RunCompose(start, before, events, i, close, maxOutputLen);
        i := i + 1;
      }
      assert exit.None? ==> events[i..] == [];
      var x := if exit.Some? then exit.value else Exhausted;
      stats := Finish(FailureOf(x), traceback);
    }

    /** `run_script` with the script given as its calls to `input` and
        `print`, and the exception, if any, it raises after them. */
    method RunScript(calls: seq<Call>, scriptError: Option<string>, traceback: string)
      returns (stats: Result<Stats, ScoreError>)
      requires Valid()
      modifies this
      ensures var (f, err) := ScriptFrom(old(State()), calls);
              State() == f &&
              stats == Outcome(groups, if err.Some? then err else scriptError, f.observed, traceback)
    {
      var i := 0;
      var err: Option<string> := None;
      while i < |calls| && err.None?
        invariant i <= |calls|
        invariant err.None? ==> ScriptFrom(old(State()), calls) == ScriptFrom(State(), calls[i..])
        invariant err.Some? ==> ScriptFrom(old(State()), calls) == (State(), err)
        decreases |calls| - i
      {
        assert calls[i..][1..] == calls[i + 1..];
        match calls[i] {
          case AskInput(prompt) =>
            var r := PyInput(prompt);
            if r.Err? {
              err := Some(r.error);
            }
          case PrintValues(values, sep, end) =>
            PyPrint(values, sep, end);
        }
        i := i + 1;
      }
      stats := Finish(if err.Some? then err else scriptError, traceback);
    }

    /** The scoring after the try block. */
    method Finish(failure: Option<string>, traceback: string) returns (stats: Result<Stats, ScoreError>)
      requires Valid()
      ensures stats == Outcome(groups, failure, observedOutput, traceback)
    {
      if failure.Some? {
        stats := ScoreOutput(groups, ExceptionText(failure.value, traceback));
        return;
      }
      stats := ScoreOutput(groups, observedOutput);
      if stats.Err? {
        stats := ScoreOutput(groups, ExceptionText(ErrorText(stats.error), traceback));
      }
    }
  }
}
