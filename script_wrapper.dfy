/** `ScriptWrapper` (byu_pytest_utils/script_wrapper.py): the output must
    stay a prefix of the expected text after every `input()` and `print`,
    each input is read off the expected text up to the next newline, and
    the run passes when the output is the expected text. */
module ScriptWrap {
  import opened TextUtil
  import opened DialogSession

  /** `_assert_output`: the output equals as much of the expected text. */
  predicate PrefixHolds(obs: string, exp: string) {
    obs == PySlice(exp, 0, |obs|)
  }

  /** The slice clamps at the end of the text, so the check is exactly
      "is a prefix". */
  lemma PrefixHoldsIff(obs: string, exp: string)
    ensures PrefixHolds(obs, exp) <==> obs <= exp
  {
    if |obs| <= |exp| {
      assert PySlice(exp, 0, |obs|) == exp[..|obs|];
    } else {
      assert |PySlice(exp, 0, |obs|)| <= |exp|;
    }
  }

  /** `_input`: the prompt is appended and checked; the answer is the
      expected text from there to the next newline, unstripped, and it is
      appended with a newline. On a failed check the prompt stays
      appended. */
  function WrapperInput(obs: string, exp: string, prompt: string): (string, Option<string>) {
    var o := obs + prompt;
    if !PrefixHolds(o, exp) then (o, None)
    else
      var answer := PySlice(exp, |o|, Find(exp, '\n', |o|));
      (o + answer + "\n", Some(answer))
  }

  /** With a newline after the prompt, the answer is the rest of the line
      and the output is again a prefix, ending just after that newline. */
  lemma WrapperInputLine(obs: string, exp: string, prompt: string, nl: nat)
    requires obs + prompt <= exp
    requires |obs + prompt| <= nl < |exp| && exp[nl] == '\n'
    requires forall k :: |obs + prompt| <= k < nl ==> exp[k] != '\n'
    ensures WrapperInput(obs, exp, prompt) == (exp[..nl + 1], Some(exp[|obs + prompt|..nl]))
  {
    var o := obs + prompt;
    PrefixHoldsIff(o, exp);
    assert Find(exp, '\n', |o|) == nl;
    assert exp[..nl + 1] == exp[..|o|] + exp[|o|..nl] + "\n";
  }

  /** Without a newline after the prompt, `find` gives -1: the answer
      stops one character short of the end, and the output is no longer a
      prefix, so the next check or the final comparison fails. */
  lemma WrapperInputNoNewline(obs: string, exp: string, prompt: string)
    requires obs + prompt <= exp
    requires forall k :: |obs + prompt| <= k < |exp| ==> exp[k] != '\n'
    ensures var o := obs + prompt;
            WrapperInput(obs, exp, prompt).1 ==
              Some(if |o| < |exp| then exp[|o|..|exp| - 1] else "")
    ensures !(WrapperInput(obs, exp, prompt).0 <= exp)
  {
    var o := obs + prompt;
    PrefixHoldsIff(o, exp);
    assert Find(exp, '\n', |o|) == -1;
    var r := WrapperInput(obs, exp, prompt).0;
    if |o| < |exp| {
      assert |r| == |exp|;
      assert r[|exp| - 1] == '\n' != exp[|exp| - 1];
    } else {
      assert |r| > |exp|;
    }
  }

  /** `_print`: the joined values and `end` are appended, then checked. */
  function WrapperPrint(obs: string, exp: string, values: seq<string>, sep: string, end: string): (string, bool) {
    var o := obs + Printed(values, sep, end);
    (o, PrefixHolds(o, exp))
  }

  /** The calls of a script, until a check fails. */
  function WrapperScript(obs: string, exp: string, calls: seq<Call>): (string, bool)
    decreases |calls|
  {
    if calls == [] then (obs, true)
    else match calls[0]
      case AskInput(prompt) =>
        var (o, answer) := WrapperInput(obs, exp, prompt);
        if answer.None? then (o, false) else WrapperScript(o, exp, calls[1..])
      case PrintValues(values, sep, end) =>
        var (o, ok) := WrapperPrint(obs, exp, values, sep, end);
        if !ok then (o, false) else WrapperScript(o, exp, calls[1..])
  }

  /** On a script of prints the checks are the prefix test, so the run
      is `PrintsRun`. */
  lemma {:induction false} PrintsOnly(obs: string, exp: string, calls: seq<Call>)
    requires forall k :: 0 <= k < |calls| ==> calls[k].PrintValues?
    ensures WrapperScript(obs, exp, calls) == PrintsRun(obs, exp, calls)
    decreases |calls|
  {
    if calls != [] {
      PrefixHoldsIff(obs + Printed(calls[0].values, calls[0].sep, calls[0].end), exp);
      var o := obs + Printed(calls[0].values, calls[0].sep, calls[0].end);
      if o <= exp {
        PrintsOnly(o, exp, calls[1..]);
      }
    }
  }

  class ScriptWrapper {
    var observedOutput: string
    const expectedOutput: string

    constructor (text: string)
      ensures expectedOutput == text && observedOutput == ""
    {
      expectedOutput := text;
      observedOutput := "";
    }

    /** `_assert_output`: whether the assertion passes. */
    method AssertOutput() returns (passed: bool)
      ensures passed == PrefixHolds(observedOutput, expectedOutput)
    {
      passed := observedOutput == PySlice(expectedOutput, 0, |observedOutput|);
    }

    /** `_input`: `None` when the assertion fails. */
    method Input(prompt: string) returns (r: Option<string>)
      modifies this
      ensures (observedOutput, r) == WrapperInput(old(observedOutput), expectedOutput, prompt)
    {
      observedOutput := observedOutput + prompt;
      var ok := AssertOutput();
      if !ok {
        return None;
      }
      var nextNewline := Find(expectedOutput, '\n', |observedOutput|);
      var result := PySlice(expectedOutput, |observedOutput|, nextNewline);
      observedOutput := observedOutput + result + "\n";
      r := Some(result);
    }

    /** `_print`: whether the assertion after it passes. */
    method Print(values: seq<string>, sep: string := ", ", end: string := "\n") returns (passed: bool)
      modifies this
      ensures (observedOutput, passed) == WrapperPrint(old(observedOutput), expectedOutput, values, sep, end)
    {
      observedOutput := observedOutput + Printed(values, sep, end);
      passed := AssertOutput();
    }

    /** `run_script`: the calls until a check fails, then the final
        equality. `scriptError` is an exception the script raises by
        itself after `calls`; nothing catches it, so the run fails. */
    method RunScript(calls: seq<Call>, scriptError: Option<string>) returns (passed: bool)
      modifies this
      ensures var (o, ok) := WrapperScript(old(observedOutput), expectedOutput, calls);
              observedOutput == o && passed == (ok && scriptError.None? && o == expectedOutput)
    {
      var i := 0;
      var ok := true;
      while i < |calls| && ok
        invariant i <= |calls|
        invariant ok ==> WrapperScript(old(observedOutput), expectedOutput, calls) ==
                         WrapperScript(observedOutput, expectedOutput, calls[i..])
        invariant !ok ==> WrapperScript(old(observedOutput), expectedOutput, calls) == (observedOutput, false)
        decreases |calls| - i
      {
        assert calls[i..][1..] == calls[i + 1..];
        match calls[i] {
          case AskInput(prompt) =>
            var r := Input(prompt);
            ok := r.Some?;
          case PrintValues(values, sep, end) =>
            ok := Print(values, sep, end);
        }
        i := i + 1;
      }
      passed := ok && scriptError.None? && observedOutput == expectedOutput;
    }
  }
}
