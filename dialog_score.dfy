/** `DialogChecker._score_output`: align the observed output against the
    expected output, carry each expected character's group symbol over to
    the aligned columns, count the columns and the matching columns of each
    group, and turn the counts into one score record per group name. */
module DialogScore {
  import opened TextUtil
  import opened AffineAlign
  import opened DialogGroups

  /** `DialogChecker.GAP`. */
  const Gap: char := '~'

  /** One entry of the returned `group_stats`. The source computes `score`
      and `max_score` in floating point; here they are exact. */
  datatype ScoreRecord = ScoreRecord(groupName: string, expected: string, observed: string,
                                     score: real, maxScore: real, passed: bool)

  /** `TooManyGaps`: the exception 'Too many gaps in expected output'.
      `MissingGroup`: the `KeyError` raised for a declared group that no
      aligned column belongs to. */
  datatype ScoreError = TooManyGaps | MissingGroup(id: GroupId)

  /** The group symbols in the order `group_names` holds them: `.`, then
      one letter per region. */
  function IdAt(k: nat): GroupId {
    if k == 0 then Default else Region(k - 1)
  }

  /** The keys `_extract_groups` gives both maps. */
  predicate Keyed(g: Groups) {
    g.weights.Keys == KeysUpTo(g.count) && g.names.Keys == KeysUpTo(g.count)
  }

  /** `m.get(k, d)`. */
  function Get<K, V>(m: map<K, V>, k: K, d: V): V {
    if k in m then m[k] else d
  }

  // ---------------------------------------------------------------------
  // The group symbol of each aligned column.

  /** `group_ids` for the aligned expected string `e`: a non-gap character
      takes the next symbol of `gs`, a gap repeats the symbol before it
      (`.` at the start). */
  function IdsOf(e: string, gs: seq<GroupId>): (r: seq<GroupId>)
    requires |e| - CountChar(e, Gap) <= |gs|
    ensures |r| == |e|
  {
    if e == [] then []
    else
      var init := e[..|e| - 1];
      var prev := IdsOf(init, gs);
      if e[|e| - 1] == Gap then prev + [if prev == [] then Default else prev[|prev| - 1]]
      else prev + [gs[|init| - CountChar(init, Gap)]]
  }

  /** The non-gap characters of a prefix are at most those of the whole. */
  lemma NonGapPrefix(e: string, n: nat)
    requires n <= |e|
    ensures n - CountChar(e[..n], Gap) <= |e| - CountChar(e, Gap)
  {
    assert e == e[..n] + e[n..];
    CountCharAppend(e[..n], e[n..], Gap);
  }

  /** The last column of `group_ids`, as `IdsOf` computes it. */
  lemma IdsLast(e: string, gs: seq<GroupId>)
    requires e != [] && |e| - CountChar(e, Gap) <= |gs|
    ensures |e| - 1 - CountChar(e[..|e| - 1], Gap) <= |gs|
    ensures IdsOf(e, gs) ==
            var init := e[..|e| - 1];
            IdsOf(init, gs) + [if e[|e| - 1] == Gap then (if |init| == 0 then Default else IdsOf(init, gs)[|init| - 1])
                               else gs[|init| - CountChar(init, Gap)]]
  {
  }

  /** The last column of `group_ids`, by itself. */
  lemma IdsLastAt(e: string, gs: seq<GroupId>)
    requires e != [] && |e| - CountChar(e, Gap) <= |gs|
    ensures e[|e| - 1] != Gap ==>
              |e| - 1 - CountChar(e[..|e| - 1], Gap) < |gs| &&
              IdsOf(e, gs)[|e| - 1] == gs[|e| - 1 - CountChar(e[..|e| - 1], Gap)]
    ensures e[|e| - 1] == Gap ==>
              IdsOf(e, gs)[|e| - 1] == if |e| == 1 then Default else IdsOf(e, gs)[|e| - 2]
  {
    IdsLast(e, gs);
    CountSnoc(e, |e| - 1);
    assert e[..|e|] == e;
    var init := e[..|e| - 1];
    var prev := IdsOf(init, gs);
    if e[|e| - 1] == Gap {
      if |e| > 1 {
        assert IdsOf(e, gs)[|e| - 2] == prev[|e| - 2];
      }
    } else {
      assert IdsOf(e, gs)[|e| - 1] == gs[|init| - CountChar(init, Gap)];
    }
  }

  /** The gap characters of one more character. */
  lemma CountSnoc(e: string, i: nat)
    requires i < |e|
    ensures CountChar(e[..i + 1], Gap) == CountChar(e[..i], Gap) + (if e[i] == Gap then 1 else 0)
  {
    assert e[..i + 1] == e[..i] + [e[i]];
    CountCharAppend(e[..i], [e[i]], Gap);
  }

  /** The symbols of a prefix are a prefix of the symbols. */
  lemma {:induction false} IdsPrefix(e: string, gs: seq<GroupId>, n: nat)
    requires n <= |e| && |e| - CountChar(e, Gap) <= |gs|
    ensures n - CountChar(e[..n], Gap) <= |gs|
    ensures IdsOf(e[..n], gs) == IdsOf(e, gs)[..n]
    decreases |e|
  {
    NonGapPrefix(e, n);
    if n < |e| {
      var init := e[..|e| - 1];
      NonGapPrefix(e, |e| - 1);
      IdsPrefix(init, gs, n);
      assert init[..n] == e[..n];
    } else {
      assert e[..n] == e;
    }
  }

  /** Column k of `group_ids`: a non-gap column carries the symbol of the
      expected character it holds, which is the one after as many symbols
      as non-gap columns precede it; a gap column repeats the column
      before, or is `.` in the first column. */
  lemma IdsAt(e: string, gs: seq<GroupId>, k: nat)
    requires |e| - CountChar(e, Gap) <= |gs| && k < |e|
    ensures e[k] != Gap ==> k - CountChar(e[..k], Gap) < |gs| &&
                            IdsOf(e, gs)[k] == gs[k - CountChar(e[..k], Gap)]
    ensures e[k] == Gap ==> IdsOf(e, gs)[k] == if k == 0 then Default else IdsOf(e, gs)[k - 1]
  {
    var p := e[..k + 1];
    IdsPrefix(e, gs, k + 1);
    IdsLastAt(p, gs);
    assert p[..|p| - 1] == e[..k] && p[k] == e[k];
  }

  /** Without gaps every column carries the symbol of its own character. */
  lemma {:induction false} IdsWithoutGaps(e: string, gs: seq<GroupId>)
    requires Gap !in e && |e| == |gs|
    ensures IdsOf(e, gs) == gs
    decreases |e|
  {
    if e != [] {
      var n := |e| - 1;
      assert Gap !in e[..n];
      IdsWithoutGaps(e[..n], gs[..n]);
      assert CountChar(e[..n], Gap) == 0;
      IdsOfPrefixOf(e[..n], gs[..n], gs);
      assert gs == gs[..n] + [gs[n]];
    }
  }

  /** `IdsOf` reads only as many symbols as the non-gap characters need. */
  lemma {:induction false} IdsOfPrefixOf(e: string, gs: seq<GroupId>, hs: seq<GroupId>)
    requires |e| - CountChar(e, Gap) <= |gs| && gs <= hs
    ensures IdsOf(e, gs) == IdsOf(e, hs)
    decreases |e|
  {
    if e != [] {
      IdsOfPrefixOf(e[..|e| - 1], gs, hs);
    }
  }

  /** A symbol of `group_ids` is `.` or a symbol of `gs`. */
  lemma {:induction false} IdsFromSequence(e: string, gs: seq<GroupId>, k: nat)
    requires |e| - CountChar(e, Gap) <= |gs| && k < |e|
    ensures IdsOf(e, gs)[k] == Default || IdsOf(e, gs)[k] in gs
  {
    IdsAt(e, gs, k);
    if e[k] == Gap && k > 0 {
      IdsFromSequence(e, gs, k - 1);
    }
  }

  // ---------------------------------------------------------------------
  // The counts of each group.

  /** `group_counts`, `group_matches`, `group_obs` and `group_exp`. */
  datatype Tally = Tally(counts: map<GroupId, nat>, matches: map<GroupId, nat>,
                         observed: map<GroupId, string>, expected: map<GroupId, string>)

  /** One iteration of the loop over `zip(obs, exp, group_ids)`. */
  function AddColumn(t: Tally, o: char, e: char, id: GroupId): Tally {
    Tally(t.counts[id := Get(t.counts, id, 0) + 1],
          if o == e then t.matches[id := Get(t.matches, id, 0) + 1] else t.matches,
          t.observed[id := Get(t.observed, id, "") + [o]],
          t.expected[id := Get(t.expected, id, "") + [e]])
  }

  /** The four dictionaries after the loop over the aligned columns. Every
      count present is positive, so the division by it is defined. */
  function TallyOf(obs: string, exp: string, ids: seq<GroupId>): (t: Tally)
    requires |obs| == |exp| == |ids|
    ensures forall id :: id in t.counts ==> t.counts[id] > 0
  {
    if ids == [] then Tally(map[], map[], map[], map[])
    else
      var n := |ids| - 1;
      AddColumn(TallyOf(obs[..n], exp[..n], ids[..n]), obs[n], exp[n], ids[n])
  }

  /** One more column, as the loop adds it. */
  lemma TallySnoc(obs: string, exp: string, ids: seq<GroupId>, col: nat)
    requires |obs| == |exp| == |ids| && col < |ids|
    ensures TallyOf(obs[..col + 1], exp[..col + 1], ids[..col + 1]) ==
            AddColumn(TallyOf(obs[..col], exp[..col], ids[..col]), obs[col], exp[col], ids[col])
  {
    assert obs[..col + 1][..col] == obs[..col] && exp[..col + 1][..col] == exp[..col];
    assert ids[..col + 1][..col] == ids[..col];
  }

  /** The characters of `s` in the columns of group `id`. */
  function Select(s: string, ids: seq<GroupId>, id: GroupId): string
    requires |s| == |ids|
  {
    if ids == [] then ""
    else
      var n := |ids| - 1;
      Select(s[..n], ids[..n], id) + (if ids[n] == id then [s[n]] else "")
  }

  /** Whether every column of group `id` pairs equal characters. */
  predicate AllMatch(obs: string, exp: string, ids: seq<GroupId>, id: GroupId)
    requires |obs| == |exp| == |ids|
  {
    forall k :: 0 <= k < |ids| && ids[k] == id ==> obs[k] == exp[k]
  }

  /** The number of columns of group `id` that pair equal characters. */
  function MatchCount(obs: string, exp: string, ids: seq<GroupId>, id: GroupId): nat
    requires |obs| == |exp| == |ids|
  {
    if ids == [] then 0
    else
      var n := |ids| - 1;
      MatchCount(obs[..n], exp[..n], ids[..n], id) + (if ids[n] == id && obs[n] == exp[n] then 1 else 0)
  }

  /** What the tally holds for a group: its number of columns, its number
      of matching columns, which is at most as many and exactly as many
      when every column of the group matches,
      and the group's characters on either side; a group is present in the
      dictionaries exactly when it has a column. */
  lemma TallyFacts(obs: string, exp: string, ids: seq<GroupId>, id: GroupId)
    requires |obs| == |exp| == |ids|
    ensures var t := TallyOf(obs, exp, ids);
            Get(t.counts, id, 0) == multiset(ids)[id] &&
            (id in t.counts <==> id in ids) &&
            (id in t.observed <==> id in ids) && (id in t.expected <==> id in ids) &&
            Get(t.matches, id, 0) == MatchCount(obs, exp, ids, id) &&
            Get(t.matches, id, 0) <= Get(t.counts, id, 0) &&
            (Get(t.matches, id, 0) == Get(t.counts, id, 0) <==> AllMatch(obs, exp, ids, id)) &&
            Get(t.observed, id, "") == Select(obs, ids, id) &&
            Get(t.expected, id, "") == Select(exp, ids, id)
  {
    TallyCounts(obs, exp, ids, id);
    TallyMatches(obs, exp, ids, id);
    TallyTexts(obs, exp, ids, id);
  }

  lemma {:induction false} TallyCounts(obs: string, exp: string, ids: seq<GroupId>, id: GroupId)
    requires |obs| == |exp| == |ids|
    ensures var t := TallyOf(obs, exp, ids);
            Get(t.counts, id, 0) == multiset(ids)[id] &&
            (id in t.counts <==> id in ids) &&
            (id in t.observed <==> id in ids) && (id in t.expected <==> id in ids)
    decreases |ids|
  {
    if ids != [] {
      var n := |ids| - 1;
      TallyCounts(obs[..n], exp[..n], ids[..n], id);
      assert ids == ids[..n] + [ids[n]];
      assert multiset(ids) == multiset(ids[..n]) + multiset{ids[n]};
    }
  }

  lemma {:induction false} TallyMatches(obs: string, exp: string, ids: seq<GroupId>, id: GroupId)
    requires |obs| == |exp| == |ids|
    ensures var t := TallyOf(obs, exp, ids);
            Get(t.matches, id, 0) == MatchCount(obs, exp, ids, id) &&
            Get(t.matches, id, 0) <= Get(t.counts, id, 0) &&
            (Get(t.matches, id, 0) == Get(t.counts, id, 0) <==> AllMatch(obs, exp, ids, id))
    decreases |ids|
  {
    if ids != [] {
      var n := |ids| - 1;
      TallyMatches(obs[..n], exp[..n], ids[..n], id);
      assert AllMatch(obs, exp, ids, id) <==>
             AllMatch(obs[..n], exp[..n], ids[..n], id) && (ids[n] == id ==> obs[n] == exp[n]);
    }
  }

  lemma {:induction false} TallyTexts(obs: string, exp: string, ids: seq<GroupId>, id: GroupId)
    requires |obs| == |exp| == |ids|
    ensures var t := TallyOf(obs, exp, ids);
            Get(t.observed, id, "") == Select(obs, ids, id) &&
            Get(t.expected, id, "") == Select(exp, ids, id)
    decreases |ids|
  {
    if ids != [] {
      var n := |ids| - 1;
      TallyTexts(obs[..n], exp[..n], ids[..n], id);
    }
  }

  // ---------------------------------------------------------------------
  // The records.

  /** The default group's texts are replaced by the whole gap-free output,
      padded with spaces to 80 characters. */
  function WithDefaultText(t: Tally, obs: string, exp: string): Tally {
    Tally(t.counts, t.matches,
          t.observed[Default := Pad(DeleteChar(obs, Gap))],
          t.expected[Default := Pad(DeleteChar(exp, Gap))])
  }

  /** Every group counted has a positive count and both texts. */
  predicate Complete(t: Tally) {
    forall id :: id in t.counts ==> t.counts[id] > 0 && id in t.observed && id in t.expected
  }

  lemma CompleteTally(obs: string, exp: string, ids: seq<GroupId>)
    requires |obs| == |exp| == |ids|
    ensures Complete(WithDefaultText(TallyOf(obs, exp, ids), obs, exp))
  {
    var t := TallyOf(obs, exp, ids);
    forall id | id in t.counts
      ensures id in t.observed && id in t.expected
    {
      TallyFacts(obs, exp, ids, id);
    }
  }

  /** `matches / count` in exact arithmetic. */
  function Fraction(matches: nat, count: nat): real
    requires count > 0
  {
    matches as real / count as real
  }

  /** `matches / count * max`: the part of the maximum that the matching
      columns earn. */
  function Share(matches: nat, count: nat, max: real): real
    requires count > 0
  {
    Fraction(matches, count) * max
  }

  /** The record of group `id`. */
  function Record(g: Groups, t: Tally, id: GroupId): ScoreRecord
    requires id in g.weights && id in g.names && id in t.counts && t.counts[id] > 0
  {
    var groupMax := MaxOf(g.weights[id]);
    ScoreRecord(g.names[id],
                DeleteChar(Get(t.expected, id, ""), Gap),
                DeleteChar(Get(t.observed, id, ""), Gap),
                Share(Get(t.matches, id, 0), t.counts[id], groupMax),
                groupMax,
                (if id in t.matches then t.matches[id] as int else -1) == t.counts[id])
  }

  /** `group_stats` after the first `n` symbols of `group_names`; a later
      group with the same name replaces an earlier one. */
  function StatsUpTo(g: Groups, t: Tally, n: nat): Result<map<string, ScoreRecord>, ScoreError>
    requires Keyed(g) && n <= g.count + 1
    requires forall id :: id in t.counts ==> t.counts[id] > 0
  {
    if n == 0 then Ok(map[])
    else match StatsUpTo(g, t, n - 1)
      case Err(e) => Err(e)
      case Ok(m) =>
        var id := IdAt(n - 1);
        IdAtKeyed(g, n - 1);
        if id !in t.counts then Err(MissingGroup(id))
        else Ok(m[g.names[id] := Record(g, t, id)])
  }

  /** The k-th symbol of `group_names` is a key of both maps. */
  lemma IdAtKeyed(g: Groups, k: nat)
    requires Keyed(g) && k <= g.count
    ensures IdAt(k) in g.weights && IdAt(k) in g.names
  {
    KeysUpToFacts(g.count);
  }

  /** One more group, as the loop adds it. */
  lemma StatsStep(g: Groups, t: Tally, n: nat)
    requires Keyed(g) && n <= g.count
    requires forall id :: id in t.counts ==> t.counts[id] > 0
    requires StatsUpTo(g, t, n).Ok? && IdAt(n) in t.counts
    ensures IdAt(n) in g.weights && IdAt(n) in g.names
    ensures StatsUpTo(g, t, n + 1) ==
            Ok(StatsUpTo(g, t, n).value[g.names[IdAt(n)] := Record(g, t, IdAt(n))])
  {
    KeysUpToFacts(g.count);
  }

  /** Once a group is missing, the error stands. */
  lemma {:induction false} StatsErrStays(g: Groups, t: Tally, n: nat, m: nat)
    requires Keyed(g) && n <= m <= g.count + 1
    requires forall id :: id in t.counts ==> t.counts[id] > 0
    requires StatsUpTo(g, t, n).Err?
    ensures StatsUpTo(g, t, m) == StatsUpTo(g, t, n)
    decreases m - n
  {
    if n < m {
      StatsErrStays(g, t, n, m - 1);
    }
  }

  /** `_score_output(observed_output)` as a function. */
  function Score(g: Groups, observed: string): Result<map<string, ScoreRecord>, ScoreError>
    requires Keyed(g)
  {
    var (a1, a2) := Align(observed, g.expected, Gap, DefaultCosts);
    AlignDeletes(observed, g.expected, Gap, DefaultCosts);
    ScoreAligned(g, a1, a2)
  }

  /** What `_score_output` does with the aligned pair: the check of the
      gaps, then the statistics of every group. */
  function ScoreAligned(g: Groups, a1: string, a2: string): Result<map<string, ScoreRecord>, ScoreError>
    requires Keyed(g) && |a1| == |a2|
  {
    if |a2| - CountChar(a2, Gap) != |g.sequence| then Err(TooManyGaps)
    else StatsUpTo(g, AlignedTally(g, a1, a2), g.count + 1)
  }

  /** The dictionaries of an aligned pair whose gap check passed, the
      default group's texts replaced; every group counted has a column. */
  function AlignedTally(g: Groups, a1: string, a2: string): (t: Tally)
    requires |a1| == |a2| && |a2| - CountChar(a2, Gap) == |g.sequence|
    ensures Complete(t)
  {
    var ids := IdsOf(a2, g.sequence);
    CompleteTally(a1, a2, ids);
    WithDefaultText(TallyOf(a1, a2, ids), a1, a2)
  }

  // ---------------------------------------------------------------------
  // The procedure.

  /** `_score_output`: the alignment, the check of its gaps, the loop that
      builds `group_ids`, the loop over the columns and the loop over the
      groups. */
  method ScoreOutput(g: Groups, observed: string) returns (r: Result<map<string, ScoreRecord>, ScoreError>)
    requires Keyed(g)
    ensures r == Score(g, observed)
  {
    var _, obs, exp := EditDist(observed, g.expected, Gap, DefaultCosts);
    AlignDeletes(observed, g.expected, Gap, DefaultCosts);
    r := ScoreAlignment(g, obs, exp);
  }

  /** The rest of `_score_output`, once `edit_dist` has aligned the
      outputs. */
  method ScoreAlignment(g: Groups, obs: string, exp: string) returns (r: Result<map<string, ScoreRecord>, ScoreError>)
    requires Keyed(g) && |obs| == |exp|
    ensures r == ScoreAligned(g, obs, exp)
  {
    if |exp| - CountChar(exp, Gap) != |g.sequence| {
      return Err(TooManyGaps);
    }
    var groupIds := GroupIds(exp, g.sequence);
    var t := CountColumns(obs, exp, groupIds);
    t := Tally(t.counts, t.matches,
               t.observed[Default := Pad(DeleteChar(obs, Gap))],
               t.expected[Default := Pad(DeleteChar(exp, Gap))]);
    assert t == AlignedTally(g, obs, exp);
    r := GroupStats(g, t);
  }

  /** The loop that builds `group_ids`, with `g` the number of symbols
      consumed so far. */
  method GroupIds(exp: string, sequence: seq<GroupId>) returns (groupIds: seq<GroupId>)
    requires |exp| - CountChar(exp, Gap) == |sequence|
    ensures groupIds == IdsOf(exp, sequence)
  {
    groupIds := [];
    var i, g := 0, 0;
    while i < |exp|
      invariant i <= |exp|
      invariant i - CountChar(exp[..i], Gap) <= |sequence|
      invariant g == i - CountChar(exp[..i], Gap)
      invariant groupIds == IdsOf(exp[..i], sequence)
    {
      NonGapPrefix(exp, i + 1);
      CountSnoc(exp, i);
      ghost var p := exp[..i + 1];
      assert p[..|p| - 1] == exp[..i];
      IdsLast(p, sequence);
      if exp[i] == Gap {
        groupIds := groupIds + [if groupIds != [] then groupIds[|groupIds| - 1] else Default];
        i := i + 1;
      } else {
        groupIds := groupIds + [sequence[g]];
        g := g + 1;
        i := i + 1;
      }
    }
    assert exp[..|exp|] == exp;
  }

  /** The loop over `zip(obs, exp, group_ids)`. */
  method CountColumns(obs: string, exp: string, groupIds: seq<GroupId>) returns (t: Tally)
    requires |obs| == |exp| == |groupIds|
    ensures t == TallyOf(obs, exp, groupIds)
  {
    var counts: map<GroupId, nat> := map[];
    var matches: map<GroupId, nat> := map[];
    var groupObs: map<GroupId, string> := map[];
    var groupExp: map<GroupId, string> := map[];
    for col := 0 to |exp|
      invariant Tally(counts, matches, groupObs, groupExp) == TallyOf(obs[..col], exp[..col], groupIds[..col])
    {
      var o, e, id := obs[col], exp[col], groupIds[col];
      ghost var before := Tally(counts, matches, groupObs, groupExp);
      if o == e {
        matches := matches[id := (if id in matches then matches[id] else 0) + 1];
      }
      counts := counts[id := (if id in counts then counts[id] else 0) + 1];
      groupObs := groupObs[id := (if id in groupObs then groupObs[id] else "") + [o]];
      groupExp := groupExp[id := (if id in groupExp then groupExp[id] else "") + [e]];
      assert Tally(counts, matches, groupObs, groupExp) == AddColumn(before, o, e, id);
      TallySnoc(obs, exp, groupIds, col);
    }
    assert obs[..|exp|] == obs && exp[..|exp|] == exp && groupIds[..|exp|] == groupIds;
    t := Tally(counts, matches, groupObs, groupExp);
  }

  /** The loop over `group_names.items()`. */
  method GroupStats(g: Groups, t: Tally) returns (r: Result<map<string, ScoreRecord>, ScoreError>)
    requires Keyed(g) && Complete(t)
    ensures r == StatsUpTo(g, t, g.count + 1)
  {
    KeysUpToFacts(g.count);
    var stats: map<string, ScoreRecord> := map[];
    for n := 0 to g.count + 1
      invariant StatsUpTo(g, t, n) == Ok(stats)
    {
      var id := if n == 0 then Default else Region(n - 1);
      if id !in t.counts {
        StatsErrStays(g, t, n + 1, g.count + 1);
        return Err(MissingGroup(id));
      }
      KeysUpToFacts(g.count);
      var record := GroupRecord(g, t, id);
      StatsStep(g, t, n);
      stats := stats[g.names[id] := record];
    }
    r := Ok(stats);
  }

  /** The dictionary `group_stats[group_name]` receives. */
  method GroupRecord(g: Groups, t: Tally, id: GroupId) returns (record: ScoreRecord)
    requires Complete(t) && id in g.weights && id in g.names && id in t.counts
    ensures record == Record(g, t, id)
  {
    var groupMax := MaxOf(g.weights[id]);
    var count := t.counts[id];
    var matched := Get(t.matches, id, 0);
    var expected, observed := t.expected[id], t.observed[id];
    assert expected == Get(t.expected, id, "") && observed == Get(t.observed, id, "");
    record := ScoreRecord(
      g.names[id],
      DeleteChar(expected, Gap),
      DeleteChar(observed, Gap),
      Fraction(matched, count) * groupMax,
      groupMax,
      (if id in t.matches then t.matches[id] as int else -1) == count);
  }

  // ---------------------------------------------------------------------
  // What `_score_output` returns.

  /** What the constructor of `DialogChecker` leaves: both maps keyed by
      `.` and the region letters, one symbol per expected character, and
      no negative weight. */
  predicate Parsed(g: Groups) {
    Keyed(g) && |g.sequence| == |g.expected| &&
    forall id :: id in g.weights ==> 0 <= g.weights[id]
  }

  /** A successful `_extract_groups` gives what `_score_output` relies on. */
  lemma ExtractParsed(s: string)
    requires Extract(s).Ok?
    ensures Parsed(Extract(s).value)
  {
    ExtractOk(s);
    var steps := StepsFrom(s, 0).value;
    KeysOfWeights(steps);
    var total := WeightSum(WeightsOf(steps), RegionCount(steps));
    FinishIs(s, steps, RegionCount(steps), total);
    WeightsNonNegative(steps);
  }

  /** Region weights are read from digits. */
  lemma {:induction false} WeightsNonNegative(steps: seq<Step>)
    ensures forall id :: id in WeightsOf(steps) ==> 0 <= WeightsOf(steps)[id]
    decreases |steps|
  {
    if steps != [] {
      var init, x := steps[..|steps| - 1], steps[|steps| - 1];
      assert steps == init + [x];
      WeightsNonNegative(init);
      AppendStep(init, x);
    }
  }

  /** `StatsUpTo` fails only with a declared group that has no column. */
  lemma {:induction false} StatsErrIsMissing(g: Groups, t: Tally, n: nat)
    requires Keyed(g) && n <= g.count + 1 && Complete(t)
    requires StatsUpTo(g, t, n).Err?
    ensures StatsUpTo(g, t, n).error.MissingGroup?
    ensures StatsUpTo(g, t, n).error.id !in t.counts
    ensures StatsUpTo(g, t, n).error.id in g.names
  {
    KeysUpToFacts(g.count);
    if StatsUpTo(g, t, n - 1).Err? {
      StatsErrIsMissing(g, t, n - 1);
    }
  }

  /** The facts the alignment contributes: equal lengths, and each side
      is its input once the gaps are removed. */
  predicate AlignedFrom(a1: string, a2: string, observed: string, expected: string) {
    |a1| == |a2| && DeleteChar(a1, Gap) == DeleteChar(observed, Gap) &&
    DeleteChar(a2, Gap) == DeleteChar(expected, Gap)
  }

  lemma AlignedFromAlign(observed: string, expected: string)
    ensures var (a1, a2) := Align(observed, expected, Gap, DefaultCosts);
            AlignedFrom(a1, a2, observed, expected)
  {
    AlignDeletes(observed, expected, Gap, DefaultCosts);
  }

  /** The gap check of an aligned pair fails exactly when the expected
      output holds `~`. */
  lemma GapCheckIff(g: Groups, a1: string, a2: string, observed: string)
    requires Parsed(g) && AlignedFrom(a1, a2, observed, g.expected)
    ensures |a2| - CountChar(a2, Gap) == |g.sequence| <==> Gap !in g.expected
  {
    assert |DeleteChar(a2, Gap)| == |DeleteChar(g.expected, Gap)|;
  }

  lemma TooManyGapsAligned(g: Groups, a1: string, a2: string, observed: string)
    requires Parsed(g) && AlignedFrom(a1, a2, observed, g.expected)
    ensures ScoreAligned(g, a1, a2) == Err(TooManyGaps) <==> Gap in g.expected
  {
    GapCheckIff(g, a1, a2, observed);
    ScoreAlignedGap(g, a1, a2);
  }

  /** Only the gap check gives `TooManyGaps`. */
  lemma ScoreAlignedGap(g: Groups, a1: string, a2: string)
    requires Keyed(g) && |a1| == |a2|
    ensures ScoreAligned(g, a1, a2) == Err(TooManyGaps) <==> |a2| - CountChar(a2, Gap) != |g.sequence|
  {
    if |a2| - CountChar(a2, Gap) == |g.sequence| {
      StatsNoGapError(g, AlignedTally(g, a1, a2), g.count + 1);
    }
  }

  /** The loop over the groups never raises the gap error. */
  lemma {:induction false} StatsNoGapError(g: Groups, t: Tally, n: nat)
    requires Keyed(g) && n <= g.count + 1 && Complete(t)
    ensures StatsUpTo(g, t, n) != Err(TooManyGaps)
  {
    if n > 0 {
      StatsNoGapError(g, t, n - 1);
    }
  }

  /** The consistency check rejects an alignment exactly when the expected
      output itself holds the gap character `~`: the check counts those
      characters as gaps too. */
  lemma TooManyGapsIff(g: Groups, observed: string)
    requires Parsed(g)
    ensures Score(g, observed) == Err(TooManyGaps) <==> Gap in g.expected
  {
    var (a1, a2) := Align(observed, g.expected, Gap, DefaultCosts);
    AlignedFromAlign(observed, g.expected);
    TooManyGapsAligned(g, a1, a2, observed);
  }

  /** Every symbol of the sequence labels some aligned column. */
  lemma {:induction false} IdsCover(e: string, gs: seq<GroupId>, j: nat)
    requires |e| - CountChar(e, Gap) <= |gs| && j < |e| - CountChar(e, Gap)
    ensures gs[j] in IdsOf(e, gs)
    decreases |e|
  {
    var init := e[..|e| - 1];
    assert e == init + [e[|e| - 1]];
    CountCharAppend(init, [e[|e| - 1]], Gap);
    var m := |init| - CountChar(init, Gap);
    if j < m {
      IdsCover(init, gs, j);
    } else {
      assert IdsOf(e, gs)[|e| - 1] == gs[j];
    }
  }

  /** The group id `IdAt` gives back. */
  function IndexOf(id: GroupId): nat {
    if id.Default? then 0 else id.index + 1
  }

  /** The group `StatsUpTo` misses labels no character of the expected
      output: every symbol of the sequence labels a column. */
  lemma MissingNotInSequence(g: Groups, a1: string, a2: string)
    requires Keyed(g) && |a1| == |a2| && |a2| - CountChar(a2, Gap) == |g.sequence|
    ensures var t := AlignedTally(g, a1, a2);
            StatsUpTo(g, t, g.count + 1).Err? ==>
              StatsUpTo(g, t, g.count + 1).error.MissingGroup? &&
              StatsUpTo(g, t, g.count + 1).error.id in g.names &&
              StatsUpTo(g, t, g.count + 1).error.id !in g.sequence
  {
    var ids := IdsOf(a2, g.sequence);
    var t := AlignedTally(g, a1, a2);
    if StatsUpTo(g, t, g.count + 1).Err? {
      StatsErrIsMissing(g, t, g.count + 1);
      var id := StatsUpTo(g, t, g.count + 1).error.id;
      TallyFacts(a1, a2, ids, id);
      if id in g.sequence {
        var j :| 0 <= j < |g.sequence| && g.sequence[j] == id;
        IdsCover(a2, g.sequence, j);
      }
    }
  }

  lemma MissingGroupAligned(g: Groups, a1: string, a2: string, observed: string)
    requires Parsed(g) && AlignedFrom(a1, a2, observed, g.expected)
    ensures ScoreAligned(g, a1, a2).Err? && ScoreAligned(g, a1, a2).error.MissingGroup? ==>
              ScoreAligned(g, a1, a2).error.id in g.names && ScoreAligned(g, a1, a2).error.id !in g.sequence
  {
    if |a2| - CountChar(a2, Gap) == |g.sequence| {
      MissingNotInSequence(g, a1, a2);
    }
  }

  lemma CoveredAligned(g: Groups, a1: string, a2: string, observed: string)
    requires Parsed(g) && AlignedFrom(a1, a2, observed, g.expected)
    requires Gap !in g.expected && forall k :: 0 <= k <= g.count ==> IdAt(k) in g.sequence
    ensures ScoreAligned(g, a1, a2).Ok?
  {
    TooManyGapsAligned(g, a1, a2, observed);
    GapCheckIff(g, a1, a2, observed);
    MissingNotInSequence(g, a1, a2);
    if ScoreAligned(g, a1, a2).Err? {
      var id := ScoreAligned(g, a1, a2).error.id;
      KeysUpToFacts(g.count);
      assert id == IdAt(IndexOf(id));
    }
  }

  /** `KeyError` names a declared group that labels no character of the
      expected output; and when every declared group labels one, the
      scoring succeeds unless the expected output holds `~`. */
  lemma MissingGroupIff(g: Groups, observed: string)
    requires Parsed(g)
    ensures Score(g, observed).Err? && Score(g, observed).error.MissingGroup? ==>
              Score(g, observed).error.id in g.names && Score(g, observed).error.id !in g.sequence
    ensures Gap !in g.expected && (forall k :: 0 <= k <= g.count ==> IdAt(k) in g.sequence) ==>
              Score(g, observed).Ok?
  {
    var (a1, a2) := Align(observed, g.expected, Gap, DefaultCosts);
    AlignedFromAlign(observed, g.expected);
    MissingGroupAligned(g, a1, a2, observed);
    if Gap !in g.expected && (forall k :: 0 <= k <= g.count ==> IdAt(k) in g.sequence) {
      CoveredAligned(g, a1, a2, observed);
    }
  }

  /** A column's symbol is one of the sequence or the leading `.`. */
  lemma {:induction false} IdsFrom(e: string, gs: seq<GroupId>)
    requires |e| - CountChar(e, Gap) <= |gs|
    ensures forall id :: id in IdsOf(e, gs) ==> id == Default || id in gs
    decreases |e|
  {
    if e != [] {
      var init := e[..|e| - 1];
      assert e == init + [e[|e| - 1]];
      CountCharAppend(init, [e[|e| - 1]], Gap);
      IdsFrom(init, gs);
    }
  }

  /** Statistics that succeed counted every group up to `n`. */
  lemma {:induction false} StatsOkCounted(g: Groups, t: Tally, n: nat)
    requires Keyed(g) && n <= g.count + 1
    requires forall id :: id in t.counts ==> t.counts[id] > 0
    requires StatsUpTo(g, t, n).Ok?
    ensures forall k :: 0 <= k < n ==> IdAt(k) in t.counts
  {
    if n > 0 {
      StatsOkCounted(g, t, n - 1);
    }
  }

  /** A declared region that labels no expected character has no count,
      so the statistics of the aligned pair fail. */
  lemma RegionUncounted(g: Groups, a1: string, a2: string, id: GroupId)
    requires Keyed(g) && |a1| == |a2| && |a2| - CountChar(a2, Gap) == |g.sequence|
    requires id.Region? && id in g.names && id !in g.sequence
    ensures StatsUpTo(g, AlignedTally(g, a1, a2), g.count + 1).Err?
  {
    var t := AlignedTally(g, a1, a2);
    if StatsUpTo(g, t, g.count + 1).Ok? {
      StatsOkCounted(g, t, g.count + 1);
      KeysUpToFacts(g.count);
      assert id == IdAt(IndexOf(id));
      TallyFacts(a1, a2, IdsOf(a2, g.sequence), id);
      IdsFrom(a2, g.sequence);
      assert false;
    }
  }

  /** A region that labels no expected character is missing whatever the
      output: once the scoring of one output raises `KeyError` for a
      region, the scoring of every output raises. */
  lemma MissingRegionStays(g: Groups, observed: string, other: string)
    requires Parsed(g)
    requires Score(g, observed).Err? && Score(g, observed).error.MissingGroup?
    requires Score(g, observed).error.id.Region?
    ensures Score(g, other).Err?
  {
    MissingGroupIff(g, observed);
    var p := Align(other, g.expected, Gap, DefaultCosts);
    AlignDeletes(other, g.expected, Gap, DefaultCosts);
    assert Score(g, other) == ScoreAligned(g, p.0, p.1);
    if |p.1| - CountChar(p.1, Gap) == |g.sequence| {
      RegionUncounted(g, p.0, p.1, Score(g, observed).error.id);
    }
  }

  /** Whether no group after the k-th and before the n-th shares its name,
      so that `group_stats` keeps the k-th group's record. */
  predicate LastOfName(g: Groups, k: nat, n: nat)
    requires Keyed(g) && k < n <= g.count + 1
  {
    KeysUpToFacts(g.count);
    forall k' :: k < k' < n ==> g.names[IdAt(k')] != g.names[IdAt(k)]
  }

  /** The records `StatsUpTo` keeps: every group up to `n` has a column,
      and a name holds the record of the last group with that name. */
  lemma {:induction false} StatsKeeps(g: Groups, t: Tally, n: nat, k: nat)
    requires Keyed(g) && k < n <= g.count + 1 && Complete(t)
    requires StatsUpTo(g, t, n).Ok? && LastOfName(g, k, n)
    ensures IdAt(k) in t.counts && IdAt(k) in g.weights && IdAt(k) in g.names
    ensures g.names[IdAt(k)] in StatsUpTo(g, t, n).value
    ensures StatsUpTo(g, t, n).value[g.names[IdAt(k)]] == Record(g, t, IdAt(k))
  {
    KeysUpToFacts(g.count);
    if k < n - 1 {
      assert LastOfName(g, k, n - 1);
      StatsKeeps(g, t, n - 1, k);
    }
  }

  /** The score lies between 0 and the maximum, and is the maximum when
      every column matches. */
  lemma FractionBounds(matched: nat, count: nat, groupMax: real)
    requires matched <= count && 0 < count && 0.0 <= groupMax
    ensures 0.0 <= Fraction(matched, count) * groupMax <= groupMax
    ensures matched == count ==> Fraction(matched, count) * groupMax == groupMax
  {
    RatioBounds(matched as real, count as real);
    ScaleBounds(Fraction(matched, count), groupMax);
  }

  /** A ratio of a part to its whole lies between 0 and 1, and is 1 for
      the whole. */
  lemma RatioBounds(part: real, whole: real)
    requires 0.0 <= part <= whole && 0.0 < whole
    ensures 0.0 <= part / whole <= 1.0
    ensures part == whole ==> part / whole == 1.0
  {
  }

  /** Scaling a nonnegative value by a ratio between 0 and 1 keeps it
      between 0 and the value. */
  lemma ScaleBounds(f: real, x: real)
    requires 0.0 <= f <= 1.0 && 0.0 <= x
    ensures 0.0 <= f * x <= x
    ensures f == 1.0 ==> f * x == x
  {
  }

  /** One record, from the counts it reads: it passed exactly when every
      column of the group matched, and its score lies between 0 and
      weight / 100, reaching it when it passed. */
  lemma RecordBounds(g: Groups, t: Tally, id: GroupId)
    requires id in g.weights && id in g.names && id in t.counts && t.counts[id] > 0
    requires 0 <= g.weights[id] && Get(t.matches, id, 0) <= t.counts[id]
    ensures var r := Record(g, t, id);
            r.groupName == g.names[id] &&
            r.maxScore == MaxOf(g.weights[id]) &&
            (r.passed <==> Get(t.matches, id, 0) == t.counts[id]) &&
            0.0 <= r.score <= r.maxScore &&
            (r.passed ==> r.score == r.maxScore)
  {
    var m, c := Get(t.matches, id, 0), t.counts[id];
    var groupMax := MaxOf(g.weights[id]);
    FractionBounds(m, c, groupMax);
    var r := Record(g, t, id);
    assert r.score == Fraction(m, c) * groupMax;
    assert r.passed <==> m == c;
  }

  /** The maximum score of a group of weight `w`. */
  function MaxOf(w: int): (r: real)
    ensures 0 <= w ==> 0.0 <= r
  {
    w as real / 100.0
  }

  /** Padding adds only spaces, so it adds no gap character. */
  lemma PadKeepsNoGap(s: string)
    requires Gap !in s
    ensures DeleteChar(Pad(s), Gap) == Pad(s)
  {
    var p := Pad(s);
    forall k | 0 <= k < |p|
      ensures p[k] != Gap
    {
      if k < |s| {
        assert p[k] == s[k];
      }
    }
  }

  /** The texts one record shows: the whole output, gaps removed and
      padded, for the default group; the group's own columns, gaps removed,
      for a region. */
  lemma RecordTexts(g: Groups, obs: string, exp: string, ids: seq<GroupId>, id: GroupId)
    requires |obs| == |exp| == |ids|
    requires id in ids && id in g.weights && id in g.names
    ensures var t := WithDefaultText(TallyOf(obs, exp, ids), obs, exp);
            id in t.counts && t.counts[id] > 0 &&
            var r := Record(g, t, id);
            (id == Default ==> r.expected == Pad(DeleteChar(exp, Gap)) && r.observed == Pad(DeleteChar(obs, Gap))) &&
            (id != Default ==> r.expected == DeleteChar(Select(exp, ids, id), Gap) &&
                               r.observed == DeleteChar(Select(obs, ids, id), Gap))
  {
    TallyFacts(obs, exp, ids, id);
    PadKeepsNoGap(DeleteChar(exp, Gap));
    PadKeepsNoGap(DeleteChar(obs, Gap));
  }

  /** The record of the k-th group after a successful scoring of an
      aligned pair. */
  lemma RecordAligned(g: Groups, a1: string, a2: string, observed: string, k: nat)
    requires Parsed(g) && AlignedFrom(a1, a2, observed, g.expected)
    requires ScoreAligned(g, a1, a2).Ok? && k <= g.count && LastOfName(g, k, g.count + 1)
    ensures DeleteChar(a2, Gap) == g.expected && |a2| - CountChar(a2, Gap) == |g.sequence| &&
            var ids := IdsOf(a2, g.sequence);
            var id := IdAt(k);
            id in ids && id in g.names && id in g.weights &&
            g.names[id] in ScoreAligned(g, a1, a2).value &&
            RecordOf(g, a1, a2, ids, id, ScoreAligned(g, a1, a2).value[g.names[id]])
  {
    TooManyGapsAligned(g, a1, a2, observed);
    GapCheckIff(g, a1, a2, observed);
    assert DeleteChar(a2, Gap) == g.expected by {
      assert DeleteChar(g.expected, Gap) == g.expected;
    }
    AlignedValue(g, a1, a2, k);
    AlignedRecord(g, a1, a2, IdAt(k));
  }

  /** The record a successful scoring of an aligned pair keeps for the
      k-th group when no later group shares its name. */
  lemma AlignedValue(g: Groups, a1: string, a2: string, k: nat)
    requires Parsed(g) && |a1| == |a2| && |a2| - CountChar(a2, Gap) == |g.sequence|
    requires ScoreAligned(g, a1, a2).Ok? && k <= g.count && LastOfName(g, k, g.count + 1)
    ensures IdAt(k) in g.names && IdAt(k) in g.weights && IdAt(k) in AlignedTally(g, a1, a2).counts
    ensures g.names[IdAt(k)] in ScoreAligned(g, a1, a2).value
    ensures ScoreAligned(g, a1, a2).value[g.names[IdAt(k)]] == Record(g, AlignedTally(g, a1, a2), IdAt(k))
  {
    StatsKeeps(g, AlignedTally(g, a1, a2), g.count + 1, k);
  }

  /** What the record of one group shows, in terms of the aligned pair:
      the group's name; `max_score` = weight / 100; passed exactly when
      every column of the group pairs equal characters; the score is
      `max_score` times the share of the group's columns that match, so
      it lies between 0 and `max_score` and reaches it when it passed; the
      default group shows both whole sides, gaps removed, padded to 80
      columns, and a region shows its own columns with the gaps removed. */
  predicate RecordOf(g: Groups, a1: string, a2: string, ids: seq<GroupId>, id: GroupId, r: ScoreRecord)
    requires |a1| == |a2| == |ids| && id in g.names && id in g.weights
  {
    r.groupName == g.names[id] &&
    r.maxScore == g.weights[id] as real / 100.0 &&
    (r.passed <==> AllMatch(a1, a2, ids, id)) &&
    multiset(ids)[id] > 0 &&
    r.score == Share(MatchCount(a1, a2, ids, id), multiset(ids)[id], r.maxScore) &&
    0.0 <= r.score <= r.maxScore &&
    (r.passed ==> r.score == r.maxScore) &&
    (id == Default ==> r.expected == Pad(DeleteChar(a2, Gap)) && r.observed == Pad(DeleteChar(a1, Gap))) &&
    (id != Default ==> r.expected == DeleteChar(Select(a2, ids, id), Gap) &&
                       r.observed == DeleteChar(Select(a1, ids, id), Gap))
  }

  /** The record of a group counted in an aligned pair. */
  lemma AlignedRecord(g: Groups, a1: string, a2: string, id: GroupId)
    requires |a1| == |a2| && |a2| - CountChar(a2, Gap) == |g.sequence|
    requires id in g.names && id in g.weights && 0 <= g.weights[id]
    requires id in AlignedTally(g, a1, a2).counts
    ensures id in IdsOf(a2, g.sequence)
    ensures RecordOf(g, a1, a2, IdsOf(a2, g.sequence), id, Record(g, AlignedTally(g, a1, a2), id))
  {
    var ids := IdsOf(a2, g.sequence);
    var t := AlignedTally(g, a1, a2);
    assert t == WithDefaultText(TallyOf(a1, a2, ids), a1, a2);
    TallyFacts(a1, a2, ids, id);
    RecordBounds(g, t, id);
    RecordTexts(g, a1, a2, ids, id);
  }

  /** What a successful `_score_output` reports for the k-th group when no
      later group shares its name, in terms of the alignment of the output
      with the expected text: the group labels some column, and its record
      is the one `RecordOf` describes, where the default group's texts are
      the expected output and the observed output with gaps removed. */
  lemma ScoreRecordFacts(g: Groups, observed: string, k: nat)
    requires Parsed(g) && Score(g, observed).Ok? && k <= g.count && LastOfName(g, k, g.count + 1)
    ensures var (a1, a2) := Align(observed, g.expected, Gap, DefaultCosts);
            AlignedFrom(a1, a2, observed, g.expected) && DeleteChar(a2, Gap) == g.expected &&
            |a2| - CountChar(a2, Gap) == |g.sequence| &&
            var ids := IdsOf(a2, g.sequence);
            var id := IdAt(k);
            id in ids && id in g.names && id in g.weights &&
            g.names[id] in Score(g, observed).value &&
            RecordOf(g, a1, a2, ids, id, Score(g, observed).value[g.names[id]])
  {
    var (a1, a2) := Align(observed, g.expected, Gap, DefaultCosts);
    AlignedFromAlign(observed, g.expected);
    RecordAligned(g, a1, a2, observed, k);
  }

  /** The names of `group_stats` are the declared group names; groups
      that share a name leave one entry. */
  lemma {:induction false} StatsNames(g: Groups, t: Tally, n: nat)
    requires Keyed(g) && n <= g.count + 1 && Complete(t)
    requires StatsUpTo(g, t, n).Ok?
    ensures StatsUpTo(g, t, n).value.Keys == set k | 0 <= k < n && IdAt(k) in g.names :: g.names[IdAt(k)]
  {
    KeysUpToFacts(g.count);
    if n > 0 {
      StatsNames(g, t, n - 1);
    }
  }

  lemma NamesAligned(g: Groups, a1: string, a2: string)
    requires Keyed(g) && |a1| == |a2| && ScoreAligned(g, a1, a2).Ok?
    ensures ScoreAligned(g, a1, a2).value.Keys == g.names.Values
  {
    var t := AlignedTally(g, a1, a2);
    StatsNames(g, t, g.count + 1);
    AllNames(g);
  }

  /** The symbols `IdAt` lists cover every declared group, so their names
      are all the names. */
  lemma AllNames(g: Groups)
    requires Keyed(g)
    ensures (set k | 0 <= k < g.count + 1 && IdAt(k) in g.names :: g.names[IdAt(k)]) == g.names.Values
  {
    KeysUpToFacts(g.count);
    forall name | name in g.names.Values
      ensures exists k :: 0 <= k < g.count + 1 && IdAt(k) in g.names && g.names[IdAt(k)] == name
    {
      var id :| id in g.names && g.names[id] == name;
      assert id == IdAt(IndexOf(id));
    }
  }

  /** A successful `_score_output` reports one record per distinct group
      name. */
  lemma ScoreNames(g: Groups, observed: string)
    requires Keyed(g) && Score(g, observed).Ok?
    ensures Score(g, observed).value.Keys == g.names.Values
  {
    var (a1, a2) := Align(observed, g.expected, Gap, DefaultCosts);
    AlignedFromAlign(observed, g.expected);
    NamesAligned(g, a1, a2);
  }

  /** Every record kept passed with full marks when every group's record
      did. */
  lemma {:induction false} StatsAllPassed(g: Groups, t: Tally, n: nat)
    requires Keyed(g) && n <= g.count + 1 && Complete(t)
    requires StatsUpTo(g, t, n).Ok?
    requires forall k :: 0 <= k < n && IdAt(k) in t.counts && IdAt(k) in g.weights && IdAt(k) in g.names ==>
               Record(g, t, IdAt(k)).passed && Record(g, t, IdAt(k)).score == Record(g, t, IdAt(k)).maxScore
    ensures forall name :: name in StatsUpTo(g, t, n).value ==>
              StatsUpTo(g, t, n).value[name].passed &&
              StatsUpTo(g, t, n).value[name].score == StatsUpTo(g, t, n).value[name].maxScore
  {
    KeysUpToFacts(g.count);
    if n > 0 {
      StatsAllPassed(g, t, n - 1);
    }
  }

  /** An output identical to the expected one passes every group with full
      marks, provided every declared group labels some character and the
      expected output holds no `~`. */
  lemma IdenticalOutputPasses(g: Groups)
    requires Parsed(g) && Gap !in g.expected
    requires forall k :: 0 <= k <= g.count ==> IdAt(k) in g.sequence
    ensures Score(g, g.expected).Ok?
    ensures forall name :: name in Score(g, g.expected).value ==>
              Score(g, g.expected).value[name].passed &&
              Score(g, g.expected).value[name].score == Score(g, g.expected).value[name].maxScore
  {
    var s := g.expected;
    MissingGroupIff(g, s);
    IdenticalInputs(s, Gap);
    AlignedFromAlign(s, s);
    IdenticalAligned(g);
  }

  lemma IdenticalAligned(g: Groups)
    requires Parsed(g) && Gap !in g.expected
    requires ScoreAligned(g, g.expected, g.expected).Ok?
    ensures forall name :: name in ScoreAligned(g, g.expected, g.expected).value ==>
              ScoreAligned(g, g.expected, g.expected).value[name].passed &&
              ScoreAligned(g, g.expected, g.expected).value[name].score ==
                ScoreAligned(g, g.expected, g.expected).value[name].maxScore
  {
    var s := g.expected;
    assert CountChar(s, Gap) == 0;
    IdsWithoutGaps(s, g.sequence);
    assert AlignedTally(g, s, s) == WithDefaultText(TallyOf(s, s, g.sequence), s, s);
    IdenticalStats(g, s);
  }

  /** The records of a text scored against itself all pass with full
      marks. */
  lemma IdenticalStats(g: Groups, s: string)
    requires Parsed(g) && |s| == |g.sequence|
    requires StatsUpTo(g, WithDefaultText(TallyOf(s, s, g.sequence), s, s), g.count + 1).Ok?
    ensures var stats := StatsUpTo(g, WithDefaultText(TallyOf(s, s, g.sequence), s, s), g.count + 1).value;
            forall name :: name in stats ==> stats[name].passed && stats[name].score == stats[name].maxScore
  {
    var ids := g.sequence;
    var t := WithDefaultText(TallyOf(s, s, ids), s, s);
    CompleteTally(s, s, ids);
    forall k | 0 <= k < g.count + 1 && IdAt(k) in t.counts && IdAt(k) in g.weights && IdAt(k) in g.names
      ensures Record(g, t, IdAt(k)).passed && Record(g, t, IdAt(k)).score == Record(g, t, IdAt(k)).maxScore
    {
      IdenticalRecord(g, s, ids, IdAt(k));
    }
    StatsAllPassed(g, t, g.count + 1);
  }

  /** Comparing a text with itself, every group counted passes with full
      marks. */
  lemma IdenticalRecord(g: Groups, s: string, ids: seq<GroupId>, id: GroupId)
    requires |ids| == |s|
    requires id in g.weights && id in g.names && 0 <= g.weights[id]
    requires id in WithDefaultText(TallyOf(s, s, ids), s, s).counts
    ensures var t := WithDefaultText(TallyOf(s, s, ids), s, s);
            t.counts[id] > 0 && Record(g, t, id).passed && Record(g, t, id).score == Record(g, t, id).maxScore
  {
    var t := WithDefaultText(TallyOf(s, s, ids), s, s);
    TallyFacts(s, s, ids, id);
    assert AllMatch(s, s, ids, id);
    RecordBounds(g, t, id);
  }
}
