/** The scoring regions of a dialog file, as `DialogChecker._extract_groups`
    reads them. A region is written ``` ``text;name;weight`` ```: its text is
    part of the expected output and is scored as its own group, worth
    `weight` points out of 100. Every character outside a region belongs to
    the default group `.`, named `everything-else`, which receives the
    points the regions leave over. */
module DialogGroups {
  import opened TextUtil
  import opened RegionPattern

  /** A group symbol. The source writes the default group as `.` and the
      k-th region (from 0) as `chr(ord('a') + k)`; these never collide. */
  datatype GroupId = Default | Region(index: nat)

  const DefaultName: string := "everything-else"

  /** What one iteration of the loop consumes: a character outside every
      region, or a whole region with its three groups. */
  datatype Step = Plain(c: char) | Marked(text: string, name: string, weight: nat)

  /** The four values `_extract_groups` returns, plus the number of regions
      (the source recovers it as `len(group_weights) - 1`). */
  datatype Groups = Groups(weights: map<GroupId, int>, names: map<GroupId, string>,
                           count: nat, sequence: seq<GroupId>, expected: string)

  /** `NoRegionMatch`: two backquotes with no region after them, where the
      source calls `.group` on the `None` that `re.search` returns.
      `WeightsOver100`: the exception for weights that add up to more than
      100. */
  datatype GroupsError = NoRegionMatch(at: nat) | WeightsOver100(total: int)

  function Prepend(x: Step, r: Result<seq<Step>, GroupsError>): Result<seq<Step>, GroupsError> {
    match r
    case Ok(xs) => Ok([x] + xs)
    case Err(e) => Err(e)
  }

  function Concat(xs: seq<Step>, r: Result<seq<Step>, GroupsError>): Result<seq<Step>, GroupsError> {
    match r
    case Ok(ys) => Ok(xs + ys)
    case Err(e) => Err(e)
  }

  /** What one iteration of the loop of `_extract_groups` reads at `i`,
      and where the next one starts. At two backquotes it steps over the
      region that starts there (the source searches for the pattern from
      `i`, which finds a match at `i` or none at all: `SearchAtTicks`);
      elsewhere it moves one character. */
  function Next(s: string, i: nat): (r: Result<(Step, nat), GroupsError>)
    requires i < |s|
    ensures r.Ok? ==> i < r.value.1 <= |s|
    ensures r.Err? ==> r.error == NoRegionMatch(i)
  {
    if TicksAt(s, i) then
      if MatchAt(s, i).None? then Err(NoRegionMatch(i))
      else
        MatchIsRegion(s, i);
        Ok((RegionStep(s, i), MatchAt(s, i).value.2 + 2))
    else Ok((Plain(s[i]), i + 1))
  }

  /** The steps the loop takes from position `i`. */
  function StepsFrom(s: string, i: nat): Result<seq<Step>, GroupsError>
    requires i <= |s|
    decreases |s| - i
  {
    if i == |s| then Ok([])
    else match Next(s, i)
      case Err(e) => Err(e)
      case Ok(n) => Prepend(n.0, StepsFrom(s, n.1))
  }

  /** The three groups of the match at `q`. */
  function RegionStep(s: string, q: nat): Step
    requires MatchAt(s, q).Some?
  {
    MatchIsRegion(s, q);
    var m := MatchAt(s, q).value;
    var digits := s[m.1 + 1..m.2];
    assert forall k :: 0 <= k < |digits| ==> digits[k] == s[m.1 + 1 + k];
    Marked(s[q + 2..m.0], s[m.0 + 1..m.1], DigitsValue(digits))
  }

  /** `symbol * n` for a one-character symbol. */
  function Repeat(x: GroupId, n: nat): (r: seq<GroupId>)
    ensures |r| == n && forall k :: 0 <= k < n ==> r[k] == x
  {
    seq(n, _ => x)
  }

  // ---------------------------------------------------------------------
  // What the loop has built after a prefix of the steps. Each is defined on
  // the last step so that one iteration of the loop is one unfolding.

  function RegionCount(steps: seq<Step>): nat {
    if steps == [] then 0
    else RegionCount(steps[..|steps| - 1]) + (if steps[|steps| - 1].Marked? then 1 else 0)
  }

  /** `group_sequence`: one symbol per character of the expected output. */
  function SymbolsOf(steps: seq<Step>): seq<GroupId> {
    if steps == [] then []
    else
      var init := steps[..|steps| - 1];
      match steps[|steps| - 1]
      case Plain(_) => SymbolsOf(init) + [Default]
      case Marked(t, _, _) => SymbolsOf(init) + Repeat(Region(RegionCount(init)), |t|)
  }

  /** `group_weights` before the default group's share is set. */
  function WeightsOf(steps: seq<Step>): map<GroupId, int> {
    if steps == [] then map[Default := 0]
    else
      var init := steps[..|steps| - 1];
      match steps[|steps| - 1]
      case Plain(_) => WeightsOf(init)
      case Marked(_, _, w) => WeightsOf(init)[Region(RegionCount(init)) := w]
  }

  /** `group_names`. */
  function NamesOf(steps: seq<Step>): map<GroupId, string> {
    if steps == [] then map[Default := DefaultName]
    else
      var init := steps[..|steps| - 1];
      match steps[|steps| - 1]
      case Plain(_) => NamesOf(init)
      case Marked(_, n, _) => NamesOf(init)[Region(RegionCount(init)) := n]
  }

  /** The text the steps leave once each region is replaced by its text. */
  function TextOf(steps: seq<Step>): string {
    if steps == [] then []
    else
      var init := steps[..|steps| - 1];
      match steps[|steps| - 1]
      case Plain(c) => TextOf(init) + [c]
      case Marked(t, _, _) => TextOf(init) + t
  }

  /** The symbols `.` and the first `n` region letters. */
  function KeysUpTo(n: nat): (r: set<GroupId>)
    ensures Default in r
  {
    if n == 0 then {Default} else KeysUpTo(n - 1) + {Region(n - 1)}
  }

  /** The weights of the first `n` regions added up. */
  function SumRegions(w: map<GroupId, int>, n: nat): int
    requires KeysUpTo(n) <= w.Keys
  {
    if n == 0 then 0 else SumRegions(w, n - 1) + w[Region(n - 1)]
  }

  /** `sum(group_weights.values())` for a map whose keys are `.` and the
      first `n` region letters. */
  function WeightSum(w: map<GroupId, int>, n: nat): int
    requires KeysUpTo(n) <= w.Keys
  {
    w[Default] + SumRegions(w, n)
  }

  /** `_extract_groups` as a function of the dialog text (with the inputs
      already removed). */
  function Extract(s: string): Result<Groups, GroupsError> {
    match StepsFrom(s, 0)
    case Err(e) => Err(e)
    case Ok(steps) => Finish(s, steps)
  }

  /** What follows the loop: the sum of the weights, the check against 100,
      the default group's share and the substitution. */
  function Finish(s: string, steps: seq<Step>): Result<Groups, GroupsError> {
    var w := WeightsOf(steps);
    var n := RegionCount(steps);
    KeysOfWeights(steps);
    var total := WeightSum(w, n);
    if total > 100 then Err(WeightsOver100(total))
    else Ok(Groups(w[Default := 100 - total], NamesOf(steps), n, SymbolsOf(steps), Substitute(s, 0)))
  }

  // ---------------------------------------------------------------------
  // The loop.

  /** `_extract_groups`: the loop over the text, the sum of the weights,
      the default group's share and the substitution of each region by its
      text. */
  method ExtractGroups(s: string) returns (r: Result<Groups, GroupsError>)
    ensures r == Extract(s)
  {
    var weights := map[Default := 0];
    var names := map[Default := DefaultName];
    var sequence: seq<GroupId> := [];
    var i := 0;
    ghost var done: seq<Step> := [];
    ConcatNothing(StepsFrom(s, 0));
    while i < |s|
      invariant i <= |s|
      invariant StepsFrom(s, 0) == Concat(done, StepsFrom(s, i))
      invariant weights == WeightsOf(done) && names == NamesOf(done) && sequence == SymbolsOf(done)
      decreases |s| - i
    {
      WeightsCount(done);
      var next := ReadStep(s, i);
      if next.Err? {
        ExtractFails(s, done, StepsFrom(s, i));
        return Err(next.error);
      }
      var (step, j) := next.value;
      if step.Marked? {
        var symbol := Region(|weights| - 1);
        names := names[symbol := step.name];
        weights := weights[symbol := step.weight];
        sequence := sequence + Repeat(symbol, |step.text|);
      } else {
        sequence := sequence + [Default];
      }
      ConcatStep(done, step, StepsFrom(s, j));
      AppendStep(done, step);
      done := done + [step];
      i := j;
    }
    ConcatNothing(Ok(done));
    ExtractSucceeds(s, done);
    KeysOfWeights(done);
    WeightsCount(done);
    var count := |weights| - 1;
    var total := WeightSum(weights, count);
    FinishIs(s, done, count, total);
    if total > 100 {
      return Err(WeightsOver100(total));
    }
    weights := weights[Default := 100 - total];
    r := Ok(Groups(weights, names, count, sequence, Substitute(s, 0)));
  }

  lemma FinishIs(s: string, steps: seq<Step>, count: nat, total: int)
    requires count == RegionCount(steps) && KeysUpTo(count) <= WeightsOf(steps).Keys
    requires total == WeightSum(WeightsOf(steps), count)
    ensures Finish(s, steps) ==
              if total > 100 then Err(WeightsOver100(total))
              else Ok(Groups(WeightsOf(steps)[Default := 100 - total], NamesOf(steps), count,
                             SymbolsOf(steps), Substitute(s, 0)))
  {
  }

  lemma ConcatStep(done: seq<Step>, x: Step, rest: Result<seq<Step>, GroupsError>)
    ensures Concat(done, Prepend(x, rest)) == Concat(done + [x], rest)
  {
    if rest.Ok? {
      assert done + ([x] + rest.value) == (done + [x]) + rest.value;
    }
  }

  /** One more step, as the loop takes it. */
  lemma AppendStep(done: seq<Step>, x: Step)
    ensures RegionCount(done + [x]) == RegionCount(done) + (if x.Marked? then 1 else 0)
    ensures SymbolsOf(done + [x]) ==
              if x.Marked? then SymbolsOf(done) + Repeat(Region(RegionCount(done)), |x.text|)
              else SymbolsOf(done) + [Default]
    ensures WeightsOf(done + [x]) ==
              if x.Marked? then WeightsOf(done)[Region(RegionCount(done)) := x.weight] else WeightsOf(done)
    ensures NamesOf(done + [x]) ==
              if x.Marked? then NamesOf(done)[Region(RegionCount(done)) := x.name] else NamesOf(done)
    ensures TextOf(done + [x]) == if x.Marked? then TextOf(done) + x.text else TextOf(done) + [x.c]
  {
    assert (done + [x])[..|done|] == done;
  }

  lemma ConcatNothing(r: Result<seq<Step>, GroupsError>)
    ensures Concat([], r) == r
    ensures r.Ok? ==> Concat(r.value, Ok([])) == r
  {
    if r.Ok? {
      assert [] + r.value == r.value && r.value + [] == r.value;
    }
  }

  /** The test and the search at the head of the loop body: two
      backquotes start a region, which `re.search` finds from `i`; any
      other character is copied. */
  method ReadStep(s: string, i: nat) returns (r: Result<(Step, nat), GroupsError>)
    requires i < |s|
    ensures r == Next(s, i)
  {
    if i + 2 <= |s| && s[i..i + 2] == "``" {
      assert TicksAt(s, i) by { assert s[i] == s[i..i + 2][0] && s[i + 1] == s[i..i + 2][1]; }
      var found := Search(s, i);
      if found.None? {
        assert !MatchesAt(s, i);
        return Err(NoRegionMatch(i));
      }
      SearchAtTicks(s, i);
      var q := found.value;
      MatchIsRegion(s, q);
      var m := MatchAt(s, q).value;
      r := Ok((RegionStep(s, q), m.2 + 2));
    } else {
      r := Ok((Plain(s[i]), i + 1));
    }
  }

  lemma ExtractFails(s: string, done: seq<Step>, rest: Result<seq<Step>, GroupsError>)
    requires rest.Err? && StepsFrom(s, 0) == Concat(done, rest)
    ensures Extract(s) == Err(rest.error)
  {
  }

  lemma ExtractSucceeds(s: string, steps: seq<Step>)
    requires StepsFrom(s, 0) == Ok(steps)
    ensures Extract(s) == Finish(s, steps)
  {
  }

  // ---------------------------------------------------------------------
  // The keys of the maps.

  lemma {:induction false} KeysUpToFacts(n: nat)
    ensures |KeysUpTo(n)| == n + 1
    ensures forall k: nat :: Region(k) in KeysUpTo(n) <==> k < n
  {
    if n > 0 {
      KeysUpToFacts(n - 1);
    }
  }

  /** `len(group_weights) - 1` counts the regions read so far. */
  lemma WeightsCount(steps: seq<Step>)
    ensures |WeightsOf(steps)| == RegionCount(steps) + 1
  {
    KeysOfWeights(steps);
    KeysUpToFacts(RegionCount(steps));
    assert |WeightsOf(steps)| == |WeightsOf(steps).Keys|;
  }

  /** The weights and names are keyed by `.` and one letter per region. */
  lemma {:induction false} KeysOfWeights(steps: seq<Step>)
    ensures WeightsOf(steps).Keys == KeysUpTo(RegionCount(steps))
    ensures NamesOf(steps).Keys == KeysUpTo(RegionCount(steps))
  {
    if steps != [] {
      var init, x := steps[..|steps| - 1], steps[|steps| - 1];
      KeysOfWeights(init);
      assert steps == init + [x];
      AppendStep(init, x);
      if x.Marked? {
        KeysStep(WeightsOf(init), RegionCount(init), x.weight);
        KeysStep(NamesOf(init), RegionCount(init), x.name);
      }
    }
  }

  /** Adding the next region letter to a map keyed up to `n`. */
  lemma KeysStep<V>(m: map<GroupId, V>, n: nat, v: V)
    requires m.Keys == KeysUpTo(n)
    ensures m[Region(n) := v].Keys == KeysUpTo(n + 1)
  {
  }

  // ---------------------------------------------------------------------
  // What `_extract_groups` returns.

  /** The text a step leaves in the expected output. */
  function StepText(x: Step): string {
    match x
    case Plain(c) => [c]
    case Marked(t, _, _) => t
  }

  lemma TextSnoc(xs: seq<Step>, x: Step)
    ensures TextOf(xs + [x]) == TextOf(xs) + StepText(x)
  {
    assert (xs + [x])[..|xs|] == xs;
  }

  lemma {:induction false} TextOfCons(x: Step, xs: seq<Step>)
    ensures TextOf([x] + xs) == StepText(x) + TextOf(xs)
    decreases |xs|
  {
    if xs == [] {
      assert [x] + xs == [] + [x];
      TextSnoc([], x);
    } else {
      var init, last := xs[..|xs| - 1], xs[|xs| - 1];
      assert TextOf([x] + xs) == TextOf([x] + init) + StepText(last) by {
        assert [x] + xs == ([x] + init) + [last];
        TextSnoc([x] + init, last);
      }
      assert TextOf([x] + init) == StepText(x) + TextOf(init) by {
        TextOfCons(x, init);
      }
      assert TextOf(xs) == TextOf(init) + StepText(last) by {
        assert xs == init + [last];
        TextSnoc(init, last);
      }
      assert (StepText(x) + TextOf(init)) + StepText(last) == StepText(x) + (TextOf(init) + StepText(last));
    }
  }

  /** `re.sub` leaves exactly the text the loop's steps cover: each region
      becomes its text and every other character stays. */
  lemma {:induction false} SubstituteIsText(s: string, i: nat, steps: seq<Step>)
    requires i <= |s| && StepsFrom(s, i) == Ok(steps)
    ensures Substitute(s, i) == TextOf(steps)
    decreases |s| - i
  {
    if i < |s| {
      var n := Next(s, i).value;
      var rest := StepsFrom(s, n.1).value;
      assert steps == [n.0] + rest;
      assert Substitute(s, n.1) == TextOf(rest) by {
        SubstituteIsText(s, n.1, rest);
      }
      assert TextOf(steps) == StepText(n.0) + TextOf(rest) by {
        TextOfCons(n.0, rest);
      }
      SubstituteStep(s, i);
    }
  }

  /** `re.sub` at a step of the loop: the step's text, then the rest. */
  lemma SubstituteStep(s: string, i: nat)
    requires i < |s| && Next(s, i).Ok?
    ensures Substitute(s, i) == StepText(Next(s, i).value.0) + Substitute(s, Next(s, i).value.1)
  {
    if !TicksAt(s, i) {
      assert MatchAt(s, i).None?;
    }
  }

  /** One group symbol per character of the expected output. */
  lemma {:induction false} SymbolsMatchText(steps: seq<Step>)
    ensures |SymbolsOf(steps)| == |TextOf(steps)|
    decreases |steps|
  {
    if steps != [] {
      var init, x := steps[..|steps| - 1], steps[|steps| - 1];
      assert steps == init + [x];
      SymbolsMatchText(init);
      AppendStep(init, x);
    }
  }

  /** Every symbol in the sequence is `.` or the letter of a region read. */
  lemma {:induction false} SymbolsAreKeys(steps: seq<Step>)
    ensures forall k :: 0 <= k < |SymbolsOf(steps)| ==> SymbolsOf(steps)[k] in KeysUpTo(RegionCount(steps))
    decreases |steps|
  {
    if steps != [] {
      var init, x := steps[..|steps| - 1], steps[|steps| - 1];
      assert steps == init + [x];
      SymbolsAreKeys(init);
      AppendStep(init, x);
      KeysUpToFacts(RegionCount(init));
      KeysUpToFacts(RegionCount(steps));
      KeysGrow(RegionCount(init), RegionCount(steps));
    }
  }

  lemma {:induction false} KeysGrow(m: nat, n: nat)
    requires m <= n
    ensures KeysUpTo(m) <= KeysUpTo(n)
    decreases n - m
  {
    if m < n {
      KeysGrow(m, n - 1);
    }
  }

  /** Setting the default group's weight leaves the regions' sum alone. */
  lemma {:induction false} SumIgnoresDefault(w: map<GroupId, int>, v: int, n: nat)
    requires KeysUpTo(n) <= w.Keys
    ensures KeysUpTo(n) <= w[Default := v].Keys
    ensures SumRegions(w[Default := v], n) == SumRegions(w, n)
  {
    if n > 0 {
      assert KeysUpTo(n - 1) <= KeysUpTo(n);
      SumIgnoresDefault(w, v, n - 1);
    }
  }

  /** A successful extraction: the weights and the names are keyed by `.`
      and one letter per region, the weights add up to exactly 100 with
      the default group's share never negative, and the sequence has one
      symbol, each of them a key, per character of the expected output,
      which is the text the loop's steps cover. */
  lemma ExtractOk(s: string)
    requires Extract(s).Ok?
    ensures var g := Extract(s).value;
            g.weights.Keys == KeysUpTo(g.count) && g.names.Keys == KeysUpTo(g.count) &&
            WeightSum(g.weights, g.count) == 100 && g.weights[Default] >= 0 &&
            |g.sequence| == |g.expected| &&
            (forall k :: 0 <= k < |g.sequence| ==> g.sequence[k] in g.weights) &&
            g.expected == TextOf(StepsFrom(s, 0).value)
  {
    var steps := StepsFrom(s, 0).value;
    var w := WeightsOf(steps);
    var n := RegionCount(steps);
    KeysOfWeights(steps);
    var total := WeightSum(w, n);
    FinishIs(s, steps, n, total);
    var g := Extract(s).value;
    assert g == Groups(w[Default := 100 - total], NamesOf(steps), n, SymbolsOf(steps), Substitute(s, 0));
    assert WeightSum(g.weights, n) == 100 by {
      SumIgnoresDefault(w, 100 - total, n);
      DefaultWeightZero(steps);
    }
    assert g.expected == TextOf(steps) by {
      SubstituteIsText(s, 0, steps);
    }
    assert |g.sequence| == |TextOf(steps)| by {
      SymbolsMatchText(steps);
    }
    assert forall k :: 0 <= k < |g.sequence| ==> g.sequence[k] in KeysUpTo(n) by {
      SymbolsAreKeys(steps);
    }
  }

  /** The loop never assigns the default group's weight. */
  lemma {:induction false} DefaultWeightZero(steps: seq<Step>)
    ensures Default in WeightsOf(steps) && WeightsOf(steps)[Default] == 0
    decreases |steps|
  {
    if steps != [] {
      var init, x := steps[..|steps| - 1], steps[|steps| - 1];
      assert steps == init + [x];
      DefaultWeightZero(init);
      AppendStep(init, x);
    }
  }

  /** The exception is raised exactly when the weights read add up to more
      than 100, and a missing region after two backquotes is reported at
      the backquotes. */
  lemma ExtractErr(s: string)
    requires Extract(s).Err?
    ensures Extract(s).error.WeightsOver100? ==>
              StepsFrom(s, 0).Ok? && Extract(s).error.total > 100 &&
              KeysUpTo(RegionCount(StepsFrom(s, 0).value)) <= WeightsOf(StepsFrom(s, 0).value).Keys &&
              Extract(s).error.total == WeightSum(WeightsOf(StepsFrom(s, 0).value), RegionCount(StepsFrom(s, 0).value))
    ensures Extract(s).error.NoRegionMatch? ==>
              TicksAt(s, Extract(s).error.at) && MatchAt(s, Extract(s).error.at).None?
  {
    if StepsFrom(s, 0).Err? {
      StepsFromErr(s, 0);
    } else {
      KeysOfWeights(StepsFrom(s, 0).value);
    }
  }

  lemma {:induction false} StepsFromErr(s: string, i: nat)
    requires i <= |s| && StepsFrom(s, i).Err?
    ensures StepsFrom(s, i).error.NoRegionMatch?
    ensures TicksAt(s, StepsFrom(s, i).error.at) && MatchAt(s, StepsFrom(s, i).error.at).None?
    decreases |s| - i
  {
    if Next(s, i).Ok? {
      StepsFromErr(s, Next(s, i).value.1);
    }
  }

  /** A text with no two backquotes in a row has no region: everything is
      in the default group, worth 100, and the text is expected as it is. */
  lemma NoRegions(s: string)
    requires forall p :: !TicksAt(s, p)
    ensures Extract(s) == Ok(Groups(map[Default := 100], map[Default := DefaultName], 0,
                                    Repeat(Default, |s|), s))
  {
    PlainSteps(s, 0);
    var steps := StepsFrom(s, 0).value;
    PlainFacts(steps);
    KeysOfWeights(steps);
    FinishIs(s, steps, 0, 0);
    assert map[Default := 0][Default := 100] == map[Default := 100];
    assert Substitute(s, 0) == s by {
      SubstituteIsText(s, 0, steps);
      assert TextOf(steps) == s;
    }
  }

  /** Without backquotes every step is the plain character it reads. */
  lemma {:induction false} PlainSteps(s: string, i: nat)
    requires i <= |s| && forall p :: !TicksAt(s, p)
    ensures StepsFrom(s, i).Ok?
    ensures |StepsFrom(s, i).value| == |s| - i
    ensures forall k :: 0 <= k < |s| - i ==> StepsFrom(s, i).value[k] == Plain(s[i + k])
    decreases |s| - i
  {
    if i < |s| {
      assert !TicksAt(s, i);
      PlainSteps(s, i + 1);
    }
  }

  /** What plain steps build: no region, weights and names of `.` only,
      and one `.` per character. */
  lemma {:induction false} PlainFacts(steps: seq<Step>)
    requires forall k :: 0 <= k < |steps| ==> steps[k].Plain?
    ensures RegionCount(steps) == 0
    ensures WeightsOf(steps) == map[Default := 0] && NamesOf(steps) == map[Default := DefaultName]
    ensures SymbolsOf(steps) == Repeat(Default, |steps|)
    ensures TextOf(steps) == seq(|steps|, k requires 0 <= k < |steps| => steps[k].c)
    decreases |steps|
  {
    if steps != [] {
      var init, x := steps[..|steps| - 1], steps[|steps| - 1];
      assert steps == init + [x];
      PlainFacts(init);
      AppendStep(init, x);
    }
  }
}
