/** The older checkers of byu_pytest_utils/io_checker.py: `IOChecker`,
    which answers `input()` from the `<<...>>` markers of a dialog file and
    compares the padded output at the end, with the Needleman-Wunsch score
    it computes on failure; and `IOCheckerObsolete`, which reads each input
    off the expected text and checks the output as it grows. */
module IOCheck {
  import opened TextUtil
  import InputMarkers
  import opened DialogSession

  // ---------------------------------------------------------------------
  // `IOChecker.edit_dist`: linear gaps, score only.

  const MatchScore := 1
  const SubScore := -1
  const Indel := -1

  /** The three candidates in the order the source tries them: the
      diagonal wins ties, then the gap in `i`, then the gap in `j`. */
  function Pick(diagonal: int, gapI: int, gapJ: int): (r: int)
    ensures r >= diagonal && r >= gapI && r >= gapJ
    ensures r == diagonal || r == gapI || r == gapJ
  {
    if diagonal >= gapI && diagonal >= gapJ then diagonal
    else if gapI >= gapJ then gapI
    else gapJ
  }

  function PairScore(x: char, y: char): int {
    if x == y then MatchScore else SubScore
  }

  /** `score_matrix[i, j]`: `i` counts characters of `expected`, `j` of
      `observed`. */
  function NW(obs: string, exp: string, i: nat, j: nat): int
    requires i <= |exp| && j <= |obs|
    decreases i + j, 1
  {
    if i == 0 then j * Indel
    else if j == 0 then i * Indel
    else InnerNW(obs, exp, i, j)
  }

  /** An inner cell: the best of its three candidates. */
  function InnerNW(obs: string, exp: string, i: nat, j: nat): int
    requires 0 < i <= |exp| && 0 < j <= |obs|
    decreases i + j, 0
  {
    Pick(NW(obs, exp, i - 1, j - 1) + PairScore(obs[j - 1], exp[i - 1]),
         NW(obs, exp, i - 1, j) + Indel,
         NW(obs, exp, i, j - 1) + Indel)
  }

  /** The table of `edit_dist`, agreeing with `NW` where it is filled. */
  ghost predicate FilledUpTo(obs: string, exp: string, table: array2<int>, i: nat, j: nat)
    reads table
    requires table.Length0 == |exp| + 1 && table.Length1 == |obs| + 1
  {
    forall ii, jj :: 0 <= ii <= |exp| && 0 <= jj <= |obs| && (ii < i || jj == 0 || (ii == i && jj < j)) ==>
      table[ii, jj] == NW(obs, exp, ii, jj)
  }

  /** `edit_dist` fills the table row by row and returns its last cell. */
  method EditDist(observed: string, expected: string) returns (score: int)
    ensures score == NW(observed, expected, |expected|, |observed|)
  {
    var len1, len2 := |observed|, |expected|;
    var table := new int[len2 + 1, len1 + 1];
    FillBorders(observed, expected, table);
    for i := 1 to len2 + 1
      invariant FilledUpTo(observed, expected, table, i, 0)
    {
      for j := 1 to len1 + 1
        invariant FilledUpTo(observed, expected, table, i, j)
      {
        FillCell(observed, expected, table, i, j);
      }
    }
    score := table[len2, len1];
  }

  /** The first column and the first row. */
  method FillBorders(observed: string, expected: string, table: array2<int>)
    requires table.Length0 == |expected| + 1 && table.Length1 == |observed| + 1
    modifies table
    ensures FilledUpTo(observed, expected, table, 1, 0)
  {
    var len1, len2 := |observed|, |expected|;
    table[0, 0] := 0;
    for i := 1 to len2 + 1
      invariant forall ii :: 0 <= ii < i ==> table[ii, 0] == NW(observed, expected, ii, 0)
    {
      table[i, 0] := table[i - 1, 0] + Indel;
    }
    for j := 1 to len1 + 1
      invariant forall ii :: 0 <= ii <= len2 ==> table[ii, 0] == NW(observed, expected, ii, 0)
      invariant forall jj :: 0 <= jj < j ==> table[0, jj] == NW(observed, expected, 0, jj)
    {
      table[0, j] := table[0, j - 1] + Indel;
    }
  }

  /** One inner cell, with the source's tie order. */
  method FillCell(observed: string, expected: string, table: array2<int>, i: nat, j: nat)
    requires table.Length0 == |expected| + 1 && table.Length1 == |observed| + 1
    requires 0 < i <= |expected| && 0 < j <= |observed|
    requires FilledUpTo(observed, expected, table, i, j)
    modifies table
    ensures FilledUpTo(observed, expected, table, i, j + 1)
  {
    assert table[i - 1, j - 1] == NW(observed, expected, i - 1, j - 1);
    assert table[i - 1, j] == NW(observed, expected, i - 1, j);
    assert table[i, j - 1] == NW(observed, expected, i, j - 1);
    var diagonal := table[i - 1, j - 1] + (if observed[j - 1] == expected[i - 1] then MatchScore else SubScore);
    var gapI := table[i - 1, j] + Indel;
    var gapJ := table[i, j - 1] + Indel;
    var best;
    if diagonal >= gapI && diagonal >= gapJ {
      best := diagonal;
    } else if gapI >= gapJ {
      best := gapI;
    } else {
      best := gapJ;
    }
    assert best == NW(observed, expected, i, j);
    table[i, j] := best;
  }

  /** A global alignment as its moves: a column pairing one character of
      each, or a gap on the observed side, or a gap on the expected side. */
  datatype Op = Both | ExpectedOnly | ObservedOnly

  /** Whether the moves align the first `i` expected characters with the
      first `j` observed ones. */
  predicate Fits(ops: seq<Op>, i: nat, j: nat)
    decreases |ops|
  {
    if ops == [] then i == 0 && j == 0
    else
      var init := ops[..|ops| - 1];
      match ops[|ops| - 1]
      case Both => i > 0 && j > 0 && Fits(init, i - 1, j - 1)
      case ExpectedOnly => i > 0 && Fits(init, i - 1, j)
      case ObservedOnly => j > 0 && Fits(init, i, j - 1)
  }

  /** The score of an alignment: +1 per match, -1 per mismatch and per gap. */
  function OpsScore(obs: string, exp: string, ops: seq<Op>, i: nat, j: nat): int
    requires i <= |exp| && j <= |obs| && Fits(ops, i, j)
    decreases |ops|
  {
    if ops == [] then 0
    else
      var init := ops[..|ops| - 1];
      match ops[|ops| - 1]
      case Both => OpsScore(obs, exp, init, i - 1, j - 1) + PairScore(obs[j - 1], exp[i - 1])
      case ExpectedOnly => OpsScore(obs, exp, init, i - 1, j) + Indel
      case ObservedOnly => OpsScore(obs, exp, init, i, j - 1) + Indel
  }

  /** No alignment scores more than the table. */
  lemma {:induction false} NWIsUpperBound(obs: string, exp: string, ops: seq<Op>, i: nat, j: nat)
    requires i <= |exp| && j <= |obs| && Fits(ops, i, j)
    ensures OpsScore(obs, exp, ops, i, j) <= NW(obs, exp, i, j)
    decreases |ops|
  {
    if ops != [] {
      var init := ops[..|ops| - 1];
      match ops[|ops| - 1]
      case Both => NWIsUpperBound(obs, exp, init, i - 1, j - 1);
      case ExpectedOnly => NWIsUpperBound(obs, exp, init, i - 1, j);
      case ObservedOnly => NWIsUpperBound(obs, exp, init, i, j - 1);
    }
  }

  /** The alignment the back-pointers of the table describe. */
  function Trace(obs: string, exp: string, i: nat, j: nat): (ops: seq<Op>)
    requires i <= |exp| && j <= |obs|
    decreases i + j, 1
  {
    if i == 0 && j == 0 then []
    else if i == 0 then Trace(obs, exp, 0, j - 1) + [ObservedOnly]
    else if j == 0 then Trace(obs, exp, i - 1, 0) + [ExpectedOnly]
    else InnerTrace(obs, exp, i, j)
  }

  function InnerTrace(obs: string, exp: string, i: nat, j: nat): (ops: seq<Op>)
    requires 0 < i <= |exp| && 0 < j <= |obs|
    decreases i + j, 0
  {
    match Choice(obs, exp, i, j)
    case Both => Trace(obs, exp, i - 1, j - 1) + [Both]
    case ExpectedOnly => Trace(obs, exp, i - 1, j) + [ExpectedOnly]
    case ObservedOnly => Trace(obs, exp, i, j - 1) + [ObservedOnly]
  }

  /** The move `path_matrix[i, j]` records, and what it scores. */
  function Choice(obs: string, exp: string, i: nat, j: nat): (m: Op)
    requires 0 < i <= |exp| && 0 < j <= |obs|
    ensures InnerNW(obs, exp, i, j) == match m
      case Both => NW(obs, exp, i - 1, j - 1) + PairScore(obs[j - 1], exp[i - 1])
      case ExpectedOnly => NW(obs, exp, i - 1, j) + Indel
      case ObservedOnly => NW(obs, exp, i, j - 1) + Indel
  {
    var diagonal := NW(obs, exp, i - 1, j - 1) + PairScore(obs[j - 1], exp[i - 1]);
    var gapI := NW(obs, exp, i - 1, j) + Indel;
    var gapJ := NW(obs, exp, i, j - 1) + Indel;
    if diagonal >= gapI && diagonal >= gapJ then Both
    else if gapI >= gapJ then ExpectedOnly
    else ObservedOnly
  }

  /** The traced alignment fits and scores what the table holds. */
  lemma {:induction false} TraceAchieves(obs: string, exp: string, i: nat, j: nat)
    requires i <= |exp| && j <= |obs|
    ensures Fits(Trace(obs, exp, i, j), i, j)
    ensures OpsScore(obs, exp, Trace(obs, exp, i, j), i, j) == NW(obs, exp, i, j)
    decreases i + j, 1
  {
    var ops := Trace(obs, exp, i, j);
    if i == 0 && j == 0 {
    } else if i == 0 {
      var init := Trace(obs, exp, 0, j - 1);
      TraceAchieves(obs, exp, 0, j - 1);
      assert ops == init + [ObservedOnly] && ops[..|ops| - 1] == init;
      assert NW(obs, exp, 0, j) == NW(obs, exp, 0, j - 1) + Indel;
    } else if j == 0 {
      var init := Trace(obs, exp, i - 1, 0);
      TraceAchieves(obs, exp, i - 1, 0);
      assert ops == init + [ExpectedOnly] && ops[..|ops| - 1] == init;
      assert NW(obs, exp, i, 0) == NW(obs, exp, i - 1, 0) + Indel;
    } else {
      assert ops == InnerTrace(obs, exp, i, j);
      InnerTraceAchieves(obs, exp, i, j);
    }
  }

  /** The same for an inner cell, by the move `path_matrix` records. */
  lemma {:induction false} InnerTraceAchieves(obs: string, exp: string, i: nat, j: nat)
    requires 0 < i <= |exp| && 0 < j <= |obs|
    ensures Fits(InnerTrace(obs, exp, i, j), i, j)
    ensures OpsScore(obs, exp, InnerTrace(obs, exp, i, j), i, j) == InnerNW(obs, exp, i, j)
    decreases i + j, 0
  {
    var ops := InnerTrace(obs, exp, i, j);
    match Choice(obs, exp, i, j)
    case Both =>
      TraceAchieves(obs, exp, i - 1, j - 1);
      assert ops[..|ops| - 1] == Trace(obs, exp, i - 1, j - 1);
    case ExpectedOnly =>
      TraceAchieves(obs, exp, i - 1, j);
      assert ops[..|ops| - 1] == Trace(obs, exp, i - 1, j);
    case ObservedOnly =>
      TraceAchieves(obs, exp, i, j - 1);
      assert ops[..|ops| - 1] == Trace(obs, exp, i, j - 1);
  }

  /** `edit_dist` returns the best Needleman-Wunsch score over all global
      alignments of the two strings. */
  lemma EditDistIsOptimal(obs: string, exp: string)
    ensures forall ops :: Fits(ops, |exp|, |obs|) ==>
              OpsScore(obs, exp, ops, |exp|, |obs|) <= NW(obs, exp, |exp|, |obs|)
    ensures Fits(Trace(obs, exp, |exp|, |obs|), |exp|, |obs|) &&
            OpsScore(obs, exp, Trace(obs, exp, |exp|, |obs|), |exp|, |obs|) == NW(obs, exp, |exp|, |obs|)
  {
    forall ops | Fits(ops, |exp|, |obs|)
      ensures OpsScore(obs, exp, ops, |exp|, |obs|) <= NW(obs, exp, |exp|, |obs|)
    {
      NWIsUpperBound(obs, exp, ops, |exp|, |obs|);
    }
    TraceAchieves(obs, exp, |exp|, |obs|);
  }

  /** The score is at least minus the total length, and at most the
      shorter length. */
  lemma {:induction false} NWBounds(obs: string, exp: string, i: nat, j: nat)
    requires i <= |exp| && j <= |obs|
    ensures -(i + j) <= NW(obs, exp, i, j)
    ensures NW(obs, exp, i, j) <= i && NW(obs, exp, i, j) <= j
    decreases i + j
  {
    if i > 0 && j > 0 {
      NWBounds(obs, exp, i - 1, j - 1);
      NWBounds(obs, exp, i - 1, j);
      NWBounds(obs, exp, i, j - 1);
    }
  }

  /** A string aligned with itself scores its length. */
  lemma {:induction false} NWIdentical(s: string, n: nat)
    requires n <= |s|
    ensures NW(s, s, n, n) == n
  {
    if n > 0 {
      NWIdentical(s, n - 1);
      NWBounds(s, s, n - 1, n);
      NWBounds(s, s, n, n - 1);
    }
  }

  // ---------------------------------------------------------------------
  // `IOChecker._assert_output`.

  /** `b` is `a` followed by spaces, both within 80 columns. */
  predicate TrailingSpaces(a: string, b: string) {
    |a| < |b| <= 80 && b == a + Spaces(|b| - |a|)
  }

  /** Padding to 80 columns makes two outputs equal exactly when they are
      equal, or both fit in 80 columns and differ only by trailing spaces
      on the longer one. */
  lemma PadEqual(a: string, b: string)
    ensures Pad(a) == Pad(b) <==> a == b || TrailingSpaces(a, b) || TrailingSpaces(b, a)
  {
    if Pad(a) == Pad(b) && a != b {
      if |a| < |b| {
        PadPrefix(a, b);
      } else if |b| < |a| {
        PadPrefix(b, a);
      } else {
        PadSameLength(a, b);
      }
    }
    if TrailingSpaces(a, b) {
      PadSpaces(a, |b| - |a|);
    }
    if TrailingSpaces(b, a) {
      PadSpaces(b, |a| - |b|);
    }
  }

  lemma PadSameLength(a: string, b: string)
    requires |a| == |b| && Pad(a) == Pad(b)
    ensures a == b
  {
    assert a == Pad(a)[..|a|];
    assert b == Pad(b)[..|b|];
  }

  lemma PadPrefix(a: string, b: string)
    requires |a| < |b| && Pad(a) == Pad(b)
    ensures TrailingSpaces(a, b)
  {
    var p := Pad(a);
    assert |b| <= 80;
    var tail := Spaces(|b| - |a|);
    forall k | 0 <= k < |b|
      ensures b[k] == (a + tail)[k]
    {
      assert b[k] == Pad(b)[k];
      if k < |a| {
        assert p[k] == a[k];
      }
    }
  }

  lemma PadSpaces(a: string, n: nat)
    requires |a| + n <= 80
    ensures Pad(a + Spaces(n)) == Pad(a)
  {
    var b := a + Spaces(n);
    var pa, pb := Pad(a), Pad(b);
    forall k | 0 <= k < 80
      ensures pb[k] == pa[k]
    {
      if k < |a| {
        assert pb[k] == b[k] && pa[k] == a[k];
      } else if k < |b| {
        assert pb[k] == b[k];
      }
    }
  }

  /** The line `IOChecker.run_script` adds when the script raised, before
      the trace. */
  function RaisedText(message: string): string {
    "\nException: " + message + "\n"
  }

  /** The output of `IOChecker.run_script` once the script stops, from the
      calls and the exception, if any, the script raises after them. */
  function IOCheckerOutput(s: Session, calls: seq<Call>, scriptError: Option<string>, traceback: string): Session {
    var (f, err) := ScriptFrom(s, calls);
    var failure := if err.Some? then err else scriptError;
    if failure.Some? then Session(f.observed + RaisedText(failure.value) + traceback, f.inputs) else f
  }

  /** A script answered from the dialog's inputs passes exactly when its
      transcript is the expected output, up to trailing spaces within 80
      columns. */
  lemma IOCheckerPassesIff(inputs: seq<string>, expected: string, calls: seq<Call>, traceback: string)
    requires InputCount(calls) <= |inputs|
    ensures var out := IOCheckerOutput(Session("", inputs), calls, None, traceback).observed;
            var t := Transcript(calls, inputs);
            Pad(out) == Pad(expected) <==> t == expected || TrailingSpaces(t, expected) || TrailingSpaces(expected, t)
  {
    var t := Transcript(calls, inputs);
    assert IOCheckerOutput(Session("", inputs), calls, None, traceback).observed == t by {
      ScriptInputs(Session("", inputs), calls);
    }
    PadEqual(t, expected);
  }

  /** Without DOTALL an input never spans lines. */
  lemma SingleLineInputs(text: string)
    ensures var (inputs, _) := InputMarkers.ExtractInput(text, false);
            forall k :: 0 <= k < |inputs| ==> '\n' !in inputs[k]
  {
    InputMarkers.ExtractInputFacts(text, false);
  }

  class IOChecker {
    var inputs: seq<string>
    var observedOutput: string
    const expectedOutput: string

    function State(): Session
      reads this
    {
      Session(observedOutput, inputs)
    }

    /** `IOChecker(dialog_file, ...)` on the file's text. */
    constructor (text: string)
      ensures (inputs, expectedOutput) == InputMarkers.ExtractInput(text, false)
      ensures observedOutput == ""
    {
      var (i, e) := InputMarkers.ExtractInput(text, false);
      inputs, expectedOutput := i, e;
      observedOutput := "";
    }

    /** `_assert_output` without the partial credit: whether it passes. */
    method AssertOutput() returns (passed: bool)
      ensures passed == (Pad(observedOutput) == Pad(expectedOutput))
    {
      passed := PadTo(observedOutput, 80) == PadTo(expectedOutput, 80);
    }

    method ConsumeOutput(printedText: string)
      modifies this
      ensures State() == Consume(old(State()), printedText, None).0
    {
      observedOutput := observedOutput + printedText;
    }

    method Input(prompt: string) returns (r: Result<string, string>)
      modifies this
      ensures (State(), r) == TakeInput(old(State()), prompt)
    {
      ConsumeOutput(prompt);
      if inputs == [] {
        return Err(MoreInputsThanExpected);
      }
      var inputText := inputs[0];
      inputs := inputs[1..];
      ConsumeOutput(inputText + "\n");
      r := Ok(inputText);
    }

    method Print(values: seq<string>, sep: string := " ", end: string := "\n")
      modifies this
      ensures State() == Consume(old(State()), Printed(values, sep, end), None).0
    {
      ConsumeOutput(Join(sep, values) + end);
    }

    /** `run_script` with the script given as its calls and the exception,
        if any, it raises after them; the result is whether the final
        assertion passes. */
    method RunScript(calls: seq<Call>, scriptError: Option<string>, traceback: string) returns (passed: bool)
      modifies this
      ensures State() == IOCheckerOutput(old(State()), calls, scriptError, traceback)
      ensures passed == (Pad(observedOutput) == Pad(expectedOutput))
    {
      var i := 0;
      var err: Option<string> := None;
      while i < |calls| && err.None?
        invariant i <= |calls|
        invariant err.None? ==> ScriptFrom(old(State()), calls) == ScriptFrom(State(), calls[i..])
        invariant err.Some? ==> ScriptFrom(old(State()), calls) == (State(), err)
        decreases |calls| - i
      {
        assert calls[i..][1..] == calls[i + 1..];
        match calls[i] {
          case AskInput(prompt) =>
            var r := Input(prompt);
            if r.Err? {
              err := Some(r.error);
            }
          case PrintValues(values, sep, end) =>
            Print(values, sep, end);
        }
        i := i + 1;
      }
      var failure := if err.Some? then err else scriptError;
      if failure.Some? {
        ConsumeOutput(RaisedText(failure.value));
        ConsumeOutput(traceback);
      }
      passed := AssertOutput();
    }
  }

  // ---------------------------------------------------------------------
  // `IOCheckerObsolete`.

  /** `IOCheckerObsolete._assert_output` as written: the prefix test, then
      the comparison with the expected text up to the next newline. */
  predicate ObsoleteAssert(obs: string, exp: string) {
    obs == PySlice(exp, 0, |obs|) || obs == PySlice(exp, 0, Find(exp, '\n', |obs|))
  }

  /** The second comparison never succeeds where the first failed, so the
      check is exactly that the output is a prefix of the expected text. */
  lemma ObsoleteAssertIsPrefix(obs: string, exp: string)
    ensures ObsoleteAssert(obs, exp) <==> obs <= exp
  {
    if obs <= exp {
      assert PySlice(exp, 0, |obs|) == exp[..|obs|];
    } else {
      var n := Find(exp, '\n', |obs|);
      var cut := PySlice(exp, 0, n);
      assert cut <= exp;
      if |obs| <= |exp| {
        assert PySlice(exp, 0, |obs|) == exp[..|obs|];
      }
    }
  }

  /** `IOCheckerObsolete._input`: the prompt is appended and checked; the
      answer is the expected text from there to the next newline,
      stripped, and it is appended with a newline. On a failed check the
      prompt stays appended. */
  function ObsoleteInput(obs: string, exp: string, prompt: string): (string, Option<string>) {
    var o := obs + prompt;
    if !ObsoleteAssert(o, exp) then (o, None)
    else
      var answer := Strip(PySlice(exp, |o|, Find(exp, '\n', |o|)));
      (o + answer + "\n", Some(answer))
  }

  /** When the expected text has a newline after the prompt, the answer is
      the rest of that line, stripped; if that line has no surrounding
      whitespace the output is again a prefix, ending at the newline. */
  lemma ObsoleteInputLine(obs: string, exp: string, prompt: string, nl: nat)
    requires obs + prompt <= exp
    requires |obs + prompt| <= nl < |exp| && exp[nl] == '\n'
    requires forall k :: |obs + prompt| <= k < nl ==> exp[k] != '\n'
    ensures ObsoleteInput(obs, exp, prompt).1 == Some(Strip(exp[|obs + prompt|..nl]))
    ensures Strip(exp[|obs + prompt|..nl]) == exp[|obs + prompt|..nl] ==>
              ObsoleteInput(obs, exp, prompt).0 == exp[..nl + 1]
  {
    var o := obs + prompt;
    ObsoleteAssertIsPrefix(o, exp);
    assert Find(exp, '\n', |o|) == nl;
    assert exp[..nl + 1] == exp[..|o|] + exp[|o|..nl] + "\n";
  }

  /** `IOCheckerObsolete._print`: the joined values and `end` are appended,
      then checked. */
  function ObsoletePrint(obs: string, exp: string, values: seq<string>, sep: string, end: string): (string, bool) {
    var o := obs + Printed(values, sep, end);
    (o, ObsoleteAssert(o, exp))
  }

  /** The calls of a script under `IOCheckerObsolete`, until a check fails. */
  function ObsoleteScript(obs: string, exp: string, calls: seq<Call>): (string, bool)
    decreases |calls|
  {
    if calls == [] then (obs, true)
    else match calls[0]
      case AskInput(prompt) =>
        var (o, answer) := ObsoleteInput(obs, exp, prompt);
        if answer.None? then (o, false) else ObsoleteScript(o, exp, calls[1..])
      case PrintValues(values, sep, end) =>
        var (o, ok) := ObsoletePrint(obs, exp, values, sep, end);
        if !ok then (o, false) else ObsoleteScript(o, exp, calls[1..])
  }

  /** On a script of prints the checks are the prefix test, so the run
      is `PrintsRun`. */
  lemma {:induction false} ObsoletePrintsOnly(obs: string, exp: string, calls: seq<Call>)
    requires forall k :: 0 <= k < |calls| ==> calls[k].PrintValues?
    ensures ObsoleteScript(obs, exp, calls) == PrintsRun(obs, exp, calls)
    decreases |calls|
  {
    if calls != [] {
      ObsoletePrintStep(obs, exp, calls);
      var o := obs + Printed(calls[0].values, calls[0].sep, calls[0].end);
      if o <= exp {
        ObsoletePrintsOnly(o, exp, calls[1..]);
      }
    }
  }

  /** One print at the head of a script: the script stops there exactly
      when the output stops being a prefix. */
  lemma ObsoletePrintStep(obs: string, exp: string, calls: seq<Call>)
    requires calls != [] && calls[0].PrintValues?
    ensures var c := calls[0];
            var o := obs + Printed(c.values, c.sep, c.end);
            ObsoleteScript(obs, exp, calls) ==
              if o <= exp then ObsoleteScript(o, exp, calls[1..]) else (o, false)
  {
    var c := calls[0];
    ObsoleteAssertIsPrefix(obs + Printed(c.values, c.sep, c.end), exp);
  }

  class IOCheckerObsolete {
    var observedOutput: string
    const expectedOutput: string

    constructor (text: string)
      ensures expectedOutput == text && observedOutput == ""
    {
      expectedOutput := text;
      observedOutput := "";
    }

    /** `_assert_output`: whether the assertion passes. */
    method AssertOutput() returns (passed: bool)
      ensures passed == ObsoleteAssert(observedOutput, expectedOutput)
    {
      passed := observedOutput == PySlice(expectedOutput, 0, |observedOutput|);
      if !passed {
        var nextNewline := Find(expectedOutput, '\n', |observedOutput|);
        passed := observedOutput == PySlice(expectedOutput, 0, nextNewline);
      }
    }

    /** `_input`: `None` when the assertion fails. */
    method Input(prompt: string) returns (r: Option<string>)
      modifies this
      ensures (observedOutput, r) == ObsoleteInput(old(observedOutput), expectedOutput, prompt)
    {
      observedOutput := observedOutput + prompt;
      var ok := AssertOutput();
      if !ok {
        return None;
      }
      var nextNewline := Find(expectedOutput, '\n', |observedOutput|);
      var result := Strip(PySlice(expectedOutput, |observedOutput|, nextNewline));
      observedOutput := observedOutput + result + "\n";
      r := Some(result);
    }

    /** `_print`: whether the assertion after it passes. */
    method Print(values: seq<string>, sep: string := ", ", end: string := "\n") returns (passed: bool)
      modifies this
      ensures (observedOutput, passed) == ObsoletePrint(old(observedOutput), expectedOutput, values, sep, end)
    {
      observedOutput := observedOutput + Printed(values, sep, end);
      passed := AssertOutput();
    }

    /** `run_script`: the calls until a check fails, then the final
        equality. `scriptError` is an exception the script raises by
        itself after `calls`; nothing catches it, so the run fails. */
    method RunScript(calls: seq<Call>, scriptError: Option<string>) returns (passed: bool)
      modifies this
      ensures var (o, ok) := ObsoleteScript(old(observedOutput), expectedOutput, calls);
              observedOutput == o && passed == (ok && scriptError.None? && o == expectedOutput)
    {
      var i := 0;
      var ok := true;
      while i < |calls| && ok
        invariant i <= |calls|
        invariant ok ==> ObsoleteScript(old(observedOutput), expectedOutput, calls) ==
                         ObsoleteScript(observedOutput, expectedOutput, calls[i..])
        invariant !ok ==> ObsoleteScript(old(observedOutput), expectedOutput, calls) == (observedOutput, false)
        decreases |calls| - i
      {
        assert calls[i..][1..] == calls[i + 1..];
        match calls[i] {
          case AskInput(prompt) =>
            var r := Input(prompt);
            ok := r.Some?;
          case PrintValues(values, sep, end) =>
            ok := Print(values, sep, end);
        }
        i := i + 1;
      }
      passed := ok && scriptError.None? && observedOutput == expectedOutput;
    }
  }
}
