/** The global alignment of `edit_dist.py`: a score table and a back-pointer
    table indexed by (i, j), i over `expected` (rows) and j over `observed`
    (columns), filled with affine gap costs, then a trace back from the
    bottom-right corner that renders the two gap-padded strings. */
module AffineAlign {
  import opened TextUtil

  /** MATCH, SUB, GAP_OPEN and GAP_EXTEND. */
  datatype Costs = Costs(matchScore: int, sub: int, gapOpen: int, gapExtend: int)

  /** The keyword defaults of `edit_dist`. */
  const DefaultCosts := Costs(1, -1, -3, -1)

  /** A back-pointer, stored as the kind of move that reached the cell:
      `Start` is the origin's (-1, -1); `Up` points to (i-1, j), a gap in the
      observed string; `Left` points to (i, j-1), a gap in the expected
      string; `Diag` points to (i-1, j-1). The source's test
      `path[(i-1, j)] != (i-2, j)` is `move != Up` on the cell above, and
      likewise `Left` for the cell to the left. */
  datatype Move = Start | Up | Left | Diag

  type Coord = (nat, nat)

  /** The cell a back-pointer of cell (i, j) designates. */
  function Back(i: nat, j: nat, m: Move): (r: Coord)
    requires m != Start
    requires m == Up ==> i > 0
    requires m == Left ==> j > 0
    requires m == Diag ==> i > 0 && j > 0
    ensures r.0 + r.1 < i + j
  {
    match m
    case Up => (i - 1, j)
    case Left => (i, j - 1)
    case Diag => (i - 1, j - 1)
  }

  /** The three candidate scores of an inner cell, given the two
      neighbours' table entries: diagonal, vertical gap (gap_i) and
      horizontal gap (gap_j). */
  function Candidates(diagScore: int, same: bool, above: (int, Move), beside: (int, Move), c: Costs)
    : (r: (int, int, int))
  {
    (diagScore + (if same then c.matchScore else c.sub),
     above.0 + c.gapExtend + (if above.1 != Up then c.gapOpen else 0),
     beside.0 + c.gapExtend + (if beside.1 != Left then c.gapOpen else 0))
  }

  /** The tie order of the source: the vertical gap if it is at least both
      others, else the horizontal gap if it is at least the diagonal, else
      the diagonal. */
  function Choose(cand: (int, int, int)): (r: (int, Move))
  {
    var (diag, gapI, gapJ) := cand;
    if gapI >= diag && gapI >= gapJ then (gapI, Up)
    else if gapJ >= diag then (gapJ, Left)
    else (diag, Diag)
  }

  /** Table entry (score, back-pointer) of cell (i, j), as the fill loops of
      `edit_dist` compute it: the borders first, then row by row. */
  function Cell(obs: string, exp: string, c: Costs, i: nat, j: nat): (r: (int, Move))
    requires i <= |exp| && j <= |obs|
    ensures r.1 == Start <==> i == 0 && j == 0
    ensures r.1 == Up ==> i > 0
    ensures r.1 == Left ==> j > 0
    ensures r.1 == Diag ==> i > 0 && j > 0
    decreases i + j, 1
  {
    if i == 0 && j == 0 then (0, Start)
    else if i == 0 then RowEntry(obs, exp, c, j)
    else if j == 0 then ColumnEntry(obs, exp, c, i)
    else InnerEntry(obs, exp, c, i, j)
  }

  /** The entry of a cell of the first row: a gap in `expected`. */
  function RowEntry(obs: string, exp: string, c: Costs, j: nat): (r: (int, Move))
    requires 1 <= j <= |obs|
    decreases j, 0
  {
    (if j == 1 then c.gapOpen + c.gapExtend else Cell(obs, exp, c, 0, j - 1).0 + c.gapExtend, Left)
  }

  /** The entry of a cell of the first column: a gap in `observed`. */
  function ColumnEntry(obs: string, exp: string, c: Costs, i: nat): (r: (int, Move))
    requires 1 <= i <= |exp|
    decreases i, 0
  {
    (if i == 1 then c.gapOpen + c.gapExtend else Cell(obs, exp, c, i - 1, 0).0 + c.gapExtend, Up)
  }

  /** The entry of an inner cell, from its three neighbours. */
  function InnerEntry(obs: string, exp: string, c: Costs, i: nat, j: nat): (r: (int, Move))
    requires 1 <= i <= |exp| && 1 <= j <= |obs|
    ensures r.1 != Start
    decreases i + j, 0
  {
    Choose(Candidates(Cell(obs, exp, c, i - 1, j - 1).0, obs[j - 1] == exp[i - 1],
                      Cell(obs, exp, c, i - 1, j), Cell(obs, exp, c, i, j - 1), c))
  }

  /** One step of a path through the table. */
  predicate IsStep(a: Coord, b: Coord) {
    (b.0 == a.0 + 1 && b.1 == a.1) || (b.0 == a.0 && b.1 == a.1 + 1) ||
    (b.0 == a.0 + 1 && b.1 == a.1 + 1)
  }

  /** A path of unit steps from the origin that stays inside the table. */
  predicate IsStepPath(p: seq<Coord>, rows: nat, cols: nat)
    decreases |p|
  {
    |p| >= 1 && p[|p| - 1].0 <= rows && p[|p| - 1].1 <= cols &&
    if |p| == 1 then p[0] == (0, 0)
    else IsStep(p[|p| - 2], p[|p| - 1]) && IsStepPath(p[..|p| - 1], rows, cols)
  }

  /** Every non-empty prefix of a step path is a step path. */
  lemma {:induction false} StepPathPrefix(p: seq<Coord>, rows: nat, cols: nat, m: nat)
    requires IsStepPath(p, rows, cols) && 1 <= m <= |p|
    ensures IsStepPath(p[..m], rows, cols)
    decreases |p|
  {
    if m < |p| {
      StepPathPrefix(p[..|p| - 1], rows, cols, m);
      assert p[..|p| - 1][..m] == p[..m];
    } else {
      assert p[..m] == p;
    }
  }

  /** The list `align_path` after reversal: the cells met by following the
      back-pointers from (i, j) to the origin, origin first. */
  function Path(obs: string, exp: string, c: Costs, i: nat, j: nat): (p: seq<Coord>)
    requires i <= |exp| && j <= |obs|
    ensures IsStepPath(p, |exp|, |obs|)
    ensures p[|p| - 1] == (i, j)
    decreases i + j
  {
    if i == 0 && j == 0 then [(0, 0)]
    else
      var (pi, pj) := Back(i, j, Cell(obs, exp, c, i, j).1);
      Path(obs, exp, c, pi, pj) + [(i, j)]
  }

  /** The aligned column a step contributes, as the interpretation loop
      decides it from di and dj: (observed side, expected side). */
  function Column(obs: string, exp: string, gap: char, a: Coord, b: Coord): (r: (char, char))
    requires IsStep(a, b) && b.0 <= |exp| && b.1 <= |obs|
  {
    var di, dj := b.0 - a.0, b.1 - a.1;
    if di == 1 && dj == 1 then (obs[a.1], exp[a.0])
    else if di == 1 then (gap, exp[a.0])
    else (obs[a.1], gap)
  }

  /** `align1` and `align2` built from a path. */
  function Render(obs: string, exp: string, gap: char, p: seq<Coord>): (r: (string, string))
    requires IsStepPath(p, |exp|, |obs|)
    decreases |p|
  {
    if |p| == 1 then ("", "")
    else
      var prev := Render(obs, exp, gap, p[..|p| - 1]);
      var col := Column(obs, exp, gap, p[|p| - 2], p[|p| - 1]);
      (prev.0 + [col.0], prev.1 + [col.1])
  }

  /** What `edit_dist(observed, expected, GAP, ...)` returns: the score of
      the bottom-right cell and the two aligned strings. */
  function Align(obs: string, exp: string, gap: char, c: Costs): (string, string)
  {
    Render(obs, exp, gap, Path(obs, exp, c, |exp|, |obs|))
  }

  // ---------------------------------------------------------------------
  // An independent reference: the affine score of a pair of aligned strings.

  /** The kind of an aligned column: a gap on the observed side is the
      vertical move, a gap on the expected side the horizontal one. */
  function Kind(x: char, y: char, gap: char): Move {
    if x == gap then Up else if y == gap then Left else Diag
  }

  /** MATCH or SUB per paired column, GAP_EXTEND per gap character and one
      GAP_OPEN for each run of gaps on the same side. */
  function AffineScore(a1: string, a2: string, gap: char, c: Costs): int
    requires |a1| == |a2|
    decreases |a1|
  {
    if a1 == [] then 0
    else
      var n := |a1| - 1;
      var kind := Kind(a1[n], a2[n], gap);
      var prev := if n == 0 then Start else Kind(a1[n - 1], a2[n - 1], gap);
      AffineScore(a1[..n], a2[..n], gap, c) +
      (match kind
       case Diag => if a1[n] == a2[n] then c.matchScore else c.sub
       case _ => c.gapExtend + (if prev != kind then c.gapOpen else 0))
  }

  // ---------------------------------------------------------------------
  // The procedure.

  /** The tables have the shape of `edit_dist`'s dictionaries. */
  predicate Shaped(obs: string, exp: string, scores: array2<int>, paths: array2<Move>) {
    scores.Length0 == paths.Length0 == |exp| + 1 && scores.Length1 == paths.Length1 == |obs| + 1
  }

  /** Table entry (ii, jj) holds `Cell`. */
  ghost predicate Agrees(obs: string, exp: string, c: Costs, scores: array2<int>, paths: array2<Move>, ii: nat, jj: nat)
    reads scores, paths
    requires Shaped(obs, exp, scores, paths) && ii <= |exp| && jj <= |obs|
  {
    scores[ii, jj] == Cell(obs, exp, c, ii, jj).0 && paths[ii, jj] == Cell(obs, exp, c, ii, jj).1
  }

  /** The first row and the first column hold `Cell`. */
  ghost predicate BordersAgree(obs: string, exp: string, c: Costs, scores: array2<int>, paths: array2<Move>)
    reads scores, paths
  {
    Shaped(obs, exp, scores, paths) &&
    (forall ii :: 0 <= ii <= |exp| ==> Agrees(obs, exp, c, scores, paths, ii, 0)) &&
    (forall jj :: 0 <= jj <= |obs| ==> Agrees(obs, exp, c, scores, paths, 0, jj))
  }

  /** Every cell holds `Cell`. */
  ghost predicate TableAgrees(obs: string, exp: string, c: Costs, scores: array2<int>, paths: array2<Move>)
    reads scores, paths
  {
    Shaped(obs, exp, scores, paths) &&
    forall ii, jj :: 0 <= ii <= |exp| && 0 <= jj <= |obs| ==> Agrees(obs, exp, c, scores, paths, ii, jj)
  }

  /** `edit_dist`: fill the tables, trace back, interpret the path. */
  method EditDist(observed: string, expected: string, gap: char, c: Costs)
    returns (score: int, align1: string, align2: string)
    ensures score == Cell(observed, expected, c, |expected|, |observed|).0
    ensures (align1, align2) == Align(observed, expected, gap, c)
  {
    var len1, len2 := |observed|, |expected|;
    var scores := new int[len2 + 1, len1 + 1];
    var paths := new Move[len2 + 1, len1 + 1];
    FillBorders(observed, expected, c, scores, paths);
    FillInner(observed, expected, c, scores, paths);
    assert Agrees(observed, expected, c, scores, paths, len2, len1);
    score := scores[len2, len1];
    var path := TraceBack(observed, expected, c, scores, paths);
    align1, align2 := Interpret(observed, expected, gap, path);
  }

  /** The base cases: origin, first row and first column. */
  method FillBorders(observed: string, expected: string, c: Costs, scores: array2<int>, paths: array2<Move>)
    requires scores.Length0 == paths.Length0 == |expected| + 1
    requires scores.Length1 == paths.Length1 == |observed| + 1
    modifies scores, paths
    ensures BordersAgree(observed, expected, c, scores, paths)
  {
    var len1, len2 := |observed|, |expected|;
    // The source also stores (0, 1) and (1, 0) when a string is empty; those
    // entries are never read, and lie outside these tables.
    scores[0, 0], paths[0, 0] := 0, Start;
    if len1 >= 1 {
      scores[0, 1], paths[0, 1] := c.gapOpen + c.gapExtend, Left;
    }
    if len2 >= 1 {
      scores[1, 0], paths[1, 0] := c.gapOpen + c.gapExtend, Up;
    }
    var i := 2;
    while i <= len2
      invariant 2 <= i <= len2 + 1 || (len2 < 2 && i == 2)
      invariant forall ii :: 0 <= ii < i && ii <= len2 ==> (scores[ii, 0], paths[ii, 0]) == Cell(observed, expected, c, ii, 0)
      invariant len1 >= 1 ==> (scores[0, 1], paths[0, 1]) == Cell(observed, expected, c, 0, 1)
    {
      ColumnNext(observed, expected, c, i);
      assert (scores[i - 1, 0], paths[i - 1, 0]) == Cell(observed, expected, c, i - 1, 0);
      scores[i, 0] := scores[i - 1, 0] + c.gapExtend;
      paths[i, 0] := Up;
      i := i + 1;
    }
    var j := 2;
    while j <= len1
      invariant 2 <= j <= len1 + 1 || (len1 < 2 && j == 2)
      invariant forall ii :: 0 <= ii <= len2 ==> (scores[ii, 0], paths[ii, 0]) == Cell(observed, expected, c, ii, 0)
      invariant forall jj :: 0 <= jj < j && jj <= len1 ==> (scores[0, jj], paths[0, jj]) == Cell(observed, expected, c, 0, jj)
    {
      RowNext(observed, expected, c, j);
      assert (scores[0, j - 1], paths[0, j - 1]) == Cell(observed, expected, c, 0, j - 1);
      scores[0, j] := scores[0, j - 1] + c.gapExtend;
      paths[0, j] := Left;
      j := j + 1;
    }
  }

  /** Down the first column each entry extends the gap above it. */
  lemma ColumnNext(obs: string, exp: string, c: Costs, i: nat)
    requires 2 <= i <= |exp|
    ensures Cell(obs, exp, c, i, 0) == (Cell(obs, exp, c, i - 1, 0).0 + c.gapExtend, Up)
  {
  }

  /** Along the first row each entry extends the gap to its left. */
  lemma RowNext(obs: string, exp: string, c: Costs, j: nat)
    requires 2 <= j <= |obs|
    ensures Cell(obs, exp, c, 0, j) == (Cell(obs, exp, c, 0, j - 1).0 + c.gapExtend, Left)
  {
  }

  /** Cell (ii, jj) has been filled once the loops reached (i, j). */
  predicate Filled(ii: nat, jj: nat, i: nat, j: nat) {
    ii < i || ii == 0 || jj == 0 || (ii == i && jj < j)
  }

  /** The nested fill loops over the inner cells, row by row. */
  method FillInner(observed: string, expected: string, c: Costs, scores: array2<int>, paths: array2<Move>)
    requires BordersAgree(observed, expected, c, scores, paths)
    modifies scores, paths
    ensures TableAgrees(observed, expected, c, scores, paths)
  {
    var len1, len2 := |observed|, |expected|;
    for i := 1 to len2 + 1
      invariant forall ii, jj :: 0 <= ii <= len2 && 0 <= jj <= len1 && Filled(ii, jj, i, 1) ==>
        Agrees(observed, expected, c, scores, paths, ii, jj)
    {
      for j := 1 to len1 + 1
        invariant forall ii, jj :: 0 <= ii <= len2 && 0 <= jj <= len1 && Filled(ii, jj, i, j) ==>
          Agrees(observed, expected, c, scores, paths, ii, jj)
      {
        assert Agrees(observed, expected, c, scores, paths, i - 1, j - 1);
        assert Agrees(observed, expected, c, scores, paths, i - 1, j);
        assert Agrees(observed, expected, c, scores, paths, i, j - 1);
        label before:
        FillCell(observed, expected, c, scores, paths, i, j);
        forall ii, jj | 0 <= ii <= len2 && 0 <= jj <= len1 && Filled(ii, jj, i, j + 1)
          ensures Agrees(observed, expected, c, scores, paths, ii, jj)
        {
          if ii != i || jj != j {
            assert old@before(Agrees(observed, expected, c, scores, paths, ii, jj));
          }
        }
      }
    }
  }

  /** One iteration of the fill: the three candidates and the tie order. */
  method FillCell(observed: string, expected: string, c: Costs, scores: array2<int>, paths: array2<Move>, i: nat, j: nat)
    requires 1 <= i <= |expected| && 1 <= j <= |observed|
    requires scores.Length0 == paths.Length0 == |expected| + 1 && scores.Length1 == paths.Length1 == |observed| + 1
    requires scores[i - 1, j - 1] == Cell(observed, expected, c, i - 1, j - 1).0
    requires scores[i - 1, j] == Cell(observed, expected, c, i - 1, j).0 && paths[i - 1, j] == Cell(observed, expected, c, i - 1, j).1
    requires scores[i, j - 1] == Cell(observed, expected, c, i, j - 1).0 && paths[i, j - 1] == Cell(observed, expected, c, i, j - 1).1
    modifies scores, paths
    ensures scores[i, j] == Cell(observed, expected, c, i, j).0 && paths[i, j] == Cell(observed, expected, c, i, j).1
    ensures forall ii, jj :: 0 <= ii < scores.Length0 && 0 <= jj < scores.Length1 && (ii != i || jj != j) ==>
      scores[ii, jj] == old(scores[ii, jj]) && paths[ii, jj] == old(paths[ii, jj])
  {
    var diag := scores[i - 1, j - 1] + (if observed[j - 1] == expected[i - 1] then c.matchScore else c.sub);
    var gapI := scores[i - 1, j] + c.gapExtend + (if paths[i - 1, j] != Up then c.gapOpen else 0);
    var gapJ := scores[i, j - 1] + c.gapExtend + (if paths[i, j - 1] != Left then c.gapOpen else 0);
    // Break ties: vertical gap, then horizontal gap, then diagonal.
    var best, move;
    if gapI >= diag && gapI >= gapJ {
      best, move := gapI, Up;
    } else if gapJ >= diag {
      best, move := gapJ, Left;
    } else {
      best, move := diag, Diag;
    }
    InnerCell(observed, expected, c, i, j);
    scores[i, j], paths[i, j] := best, move;
  }

  /** One unfolding of `Cell` at an inner cell. */
  lemma InnerCell(obs: string, exp: string, c: Costs, i: nat, j: nat)
    requires 1 <= i <= |exp| && 1 <= j <= |obs|
    ensures Cell(obs, exp, c, i, j) ==
            Choose(Candidates(Cell(obs, exp, c, i - 1, j - 1).0, obs[j - 1] == exp[i - 1],
                              Cell(obs, exp, c, i - 1, j), Cell(obs, exp, c, i, j - 1), c))
  {
  }

  /** The `while align_path[-1] != (0, 0)` loop and the reversal. */
  method TraceBack(observed: string, expected: string, c: Costs, scores: array2<int>, paths: array2<Move>)
    returns (path: seq<Coord>)
    requires TableAgrees(observed, expected, c, scores, paths)
    ensures path == Path(observed, expected, c, |expected|, |observed|)
  {
    var len1, len2 := |observed|, |expected|;
    ghost var rest: seq<Coord> := [];
    var alignPath: seq<Coord> := [(len2, len1)];
    var i: nat, j: nat := len2, len1;
    while (i, j) != (0, 0)
      invariant i <= len2 && j <= len1
      invariant Path(observed, expected, c, len2, len1) == Path(observed, expected, c, i, j) + rest
      invariant Reversed(alignPath) == [(i, j)] + rest
      decreases i + j
    {
      assert Agrees(observed, expected, c, scores, paths, i, j);
      var back := Back(i, j, paths[i, j]);
      ghost var here := (i, j);
      PathBack(observed, expected, c, i, j, rest);
      i, j := back.0, back.1;
      ReversedSnoc(alignPath, (i, j));
      alignPath := alignPath + [(i, j)];
      rest := [here] + rest;
    }
    path := Reversed(alignPath);
  }

  /** One step of the trace back: the path to (i, j) is the path to the
      cell its back-pointer designates, then (i, j). */
  lemma PathBack(obs: string, exp: string, c: Costs, i: nat, j: nat, rest: seq<Coord>)
    requires i <= |exp| && j <= |obs| && (i != 0 || j != 0)
    ensures var back := Back(i, j, Cell(obs, exp, c, i, j).1);
            Path(obs, exp, c, i, j) + rest == Path(obs, exp, c, back.0, back.1) + ([(i, j)] + rest)
  {
    var back := Back(i, j, Cell(obs, exp, c, i, j).1);
    var q := Path(obs, exp, c, back.0, back.1);
    assert Path(obs, exp, c, i, j) == q + [(i, j)];
    AppendAssoc(q, [(i, j)], rest);
  }

  lemma AppendAssoc<T>(a: seq<T>, b: seq<T>, c: seq<T>)
    ensures (a + b) + c == a + (b + c)
  {
  }

  lemma ReversedSnoc<T>(xs: seq<T>, x: T)
    ensures Reversed(xs + [x]) == [x] + Reversed(xs)
  {
    assert forall k :: 0 <= k < |xs| + 1 ==> Reversed(xs + [x])[k] == ([x] + Reversed(xs))[k];
  }

  /** The loop over consecutive pairs of the path that builds `align1`
      (observed side) and `align2` (expected side). */
  method Interpret(observed: string, expected: string, gap: char, path: seq<Coord>)
    returns (align1: string, align2: string)
    requires IsStepPath(path, |expected|, |observed|)
    ensures (align1, align2) == Render(observed, expected, gap, path)
  {
    align1, align2 := "", "";
    var a1, a2 := 0, 0;
    StepPathPrefix(path, |expected|, |observed|, 1);
    for k := 0 to |path| - 1
      invariant IsStepPath(path[..k + 1], |expected|, |observed|)
      invariant (align1, align2) == Render(observed, expected, gap, path[..k + 1])
      invariant a1 == path[k].1 && a2 == path[k].0
    {
      StepPathPrefix(path, |expected|, |observed|, k + 2);
      var (pi, pj) := path[k];
      var (ci, cj) := path[k + 1];
      var di, dj := ci - pi, cj - pj;
      assert path[..k + 2][..k + 1] == path[..k + 1];
      if di == 1 && dj == 1 {
        align1 := align1 + [observed[a1]];
        a1 := a1 + 1;
        align2 := align2 + [expected[a2]];
        a2 := a2 + 1;
      } else if di == 1 {
        align1 := align1 + [gap];
        align2 := align2 + [expected[a2]];
        a2 := a2 + 1;
      } else {
        align1 := align1 + [observed[a1]];
        a1 := a1 + 1;
        align2 := align2 + [gap];
      }
    }
    assert path[..|path|] == path;
  }

  /** `list(reversed(xs))`. */
  function Reversed<T>(xs: seq<T>): (r: seq<T>)
    ensures |r| == |xs|
    ensures forall k :: 0 <= k < |xs| ==> r[k] == xs[|xs| - 1 - k]
  {
    seq(|xs|, k requires 0 <= k < |xs| => xs[|xs| - 1 - k])
  }

  // ---------------------------------------------------------------------
  // Properties of the tables and of the alignment.

  /** Border cells: GAP_OPEN once, then GAP_EXTEND per step, and a
      back-pointer one step toward the origin. */
  lemma {:induction false} BorderCells(obs: string, exp: string, c: Costs, i: nat, j: nat)
    requires i <= |exp| && j <= |obs|
    ensures 1 <= i ==> Cell(obs, exp, c, i, 0) == (c.gapOpen + i * c.gapExtend, Up)
    ensures 1 <= j ==> Cell(obs, exp, c, 0, j) == (c.gapOpen + j * c.gapExtend, Left)
  {
    if i >= 2 {
      BorderCells(obs, exp, c, i - 1, 0);
    }
    if j >= 2 {
      BorderCells(obs, exp, c, 0, j - 1);
    }
  }

  /** An inner cell takes the best of its three candidates; among equal
      candidates the vertical gap wins, then the horizontal gap, and the
      diagonal only when it is strictly best. */
  lemma TieOrder(obs: string, exp: string, c: Costs, i: nat, j: nat)
    requires 1 <= i <= |exp| && 1 <= j <= |obs|
    ensures var (diag, gapI, gapJ) := Candidates(Cell(obs, exp, c, i - 1, j - 1).0, obs[j - 1] == exp[i - 1],
                                                  Cell(obs, exp, c, i - 1, j), Cell(obs, exp, c, i, j - 1), c);
            var (best, move) := Cell(obs, exp, c, i, j);
            best >= diag && best >= gapI && best >= gapJ &&
            (move == Up <==> gapI >= diag && gapI >= gapJ) &&
            (move == Left <==> gapJ > gapI && gapJ >= diag) &&
            (move == Diag <==> diag > gapI && diag > gapJ) &&
            best == (match move case Up => gapI case Left => gapJ case _ => diag)
  {
  }

  /** The column a step adds to a rendering. */
  lemma RenderLast(obs: string, exp: string, gap: char, p: seq<Coord>)
    requires IsStepPath(p, |exp|, |obs|) && |p| > 1
    ensures IsStepPath(p[..|p| - 1], |exp|, |obs|)
    ensures var (a1, a2) := Render(obs, exp, gap, p);
            var (b1, b2) := Render(obs, exp, gap, p[..|p| - 1]);
            var col := Column(obs, exp, gap, p[|p| - 2], p[|p| - 1]);
            a1 == b1 + [col.0] && a2 == b2 + [col.1]
  {
  }

  /** Any path of unit steps renders two strings of equal length, one
      column per step. */
  lemma {:induction false} RenderLength(obs: string, exp: string, gap: char, p: seq<Coord>)
    requires IsStepPath(p, |exp|, |obs|)
    ensures |Render(obs, exp, gap, p).0| == |Render(obs, exp, gap, p).1| == |p| - 1
    decreases |p|
  {
    if |p| > 1 {
      RenderLast(obs, exp, gap, p);
      RenderLength(obs, exp, gap, p[..|p| - 1]);
    }
  }

  /** Column k of a rendering is the column of the k-th step. */
  lemma {:induction false} RenderColumns(obs: string, exp: string, gap: char, p: seq<Coord>, k: nat)
    requires IsStepPath(p, |exp|, |obs|) && k < |p| - 1
    ensures |Render(obs, exp, gap, p).0| == |Render(obs, exp, gap, p).1| == |p| - 1
    ensures IsStep(p[k], p[k + 1]) && p[k + 1].0 <= |exp| && p[k + 1].1 <= |obs|
    ensures (Render(obs, exp, gap, p).0[k], Render(obs, exp, gap, p).1[k]) == Column(obs, exp, gap, p[k], p[k + 1])
    decreases |p|
  {
    RenderLength(obs, exp, gap, p);
    RenderLast(obs, exp, gap, p);
    if k < |p| - 2 {
      RenderColumns(obs, exp, gap, p[..|p| - 1], k);
    }
  }

  /** When the gap character occurs in neither input, no rendered column
      is a gap on both sides. */
  lemma NoDoubleGap(obs: string, exp: string, gap: char, p: seq<Coord>)
    requires IsStepPath(p, |exp|, |obs|) && gap !in obs && gap !in exp
    ensures var (a1, a2) := Render(obs, exp, gap, p);
            forall k :: 0 <= k < |a1| && k < |a2| ==> a1[k] != gap || a2[k] != gap
  {
    RenderLength(obs, exp, gap, p);
    forall k | 0 <= k < |p| - 1
      ensures Render(obs, exp, gap, p).0[k] != gap || Render(obs, exp, gap, p).1[k] != gap
    {
      RenderColumns(obs, exp, gap, p, k);
    }
  }

  /** Deleting the gap character from the observed side gives what deleting
      it from the prefix of `observed` the path consumed gives; so when the
      gap character does not occur in `observed`, it gives that prefix. */
  lemma {:induction false} RenderDeletesObserved(obs: string, exp: string, gap: char, p: seq<Coord>)
    requires IsStepPath(p, |exp|, |obs|)
    ensures DeleteChar(Render(obs, exp, gap, p).0, gap) == DeleteChar(obs[..p[|p| - 1].1], gap)
    decreases |p|
  {
    if |p| > 1 {
      var q := p[..|p| - 1];
      var pj, cj := p[|p| - 2].1, p[|p| - 1].1;
      var col := Column(obs, exp, gap, p[|p| - 2], p[|p| - 1]);
      var b1 := Render(obs, exp, gap, q).0;
      assert Render(obs, exp, gap, p).0 == b1 + [col.0] by {
        RenderLast(obs, exp, gap, p);
      }
      assert DeleteChar(b1, gap) == DeleteChar(obs[..pj], gap) by {
        RenderDeletesObserved(obs, exp, gap, q);
      }
      DeleteCharAppend(b1, [col.0], gap);
      if cj == pj + 1 {
        PrefixSnoc(obs, cj);
        DeleteCharAppend(obs[..pj], [obs[pj]], gap);
      } else {
        assert col.0 == gap;
      }
    }
  }

  /** The same for the expected side. */
  lemma {:induction false} RenderDeletesExpected(obs: string, exp: string, gap: char, p: seq<Coord>)
    requires IsStepPath(p, |exp|, |obs|)
    ensures DeleteChar(Render(obs, exp, gap, p).1, gap) == DeleteChar(exp[..p[|p| - 1].0], gap)
    decreases |p|
  {
    if |p| > 1 {
      var q := p[..|p| - 1];
      var pi, ci := p[|p| - 2].0, p[|p| - 1].0;
      var col := Column(obs, exp, gap, p[|p| - 2], p[|p| - 1]);
      var b2 := Render(obs, exp, gap, q).1;
      assert Render(obs, exp, gap, p).1 == b2 + [col.1] by {
        RenderLast(obs, exp, gap, p);
      }
      assert DeleteChar(b2, gap) == DeleteChar(exp[..pi], gap) by {
        RenderDeletesExpected(obs, exp, gap, q);
      }
      DeleteCharAppend(b2, [col.1], gap);
      if ci == pi + 1 {
        PrefixSnoc(exp, ci);
        DeleteCharAppend(exp[..pi], [exp[pi]], gap);
      } else {
        assert col.1 == gap;
      }
    }
  }

  /** Deleting the gap character from the two aligned strings gives what
      deleting it from `observed` and `expected` gives, whatever they hold. */
  lemma AlignDeletes(obs: string, exp: string, gap: char, c: Costs)
    ensures var (a1, a2) := Align(obs, exp, gap, c);
            |a1| == |a2| && DeleteChar(a1, gap) == DeleteChar(obs, gap) && DeleteChar(a2, gap) == DeleteChar(exp, gap)
  {
    RenderLength(obs, exp, gap, Path(obs, exp, c, |exp|, |obs|));
    RenderDeletesObserved(obs, exp, gap, Path(obs, exp, c, |exp|, |obs|));
    RenderDeletesExpected(obs, exp, gap, Path(obs, exp, c, |exp|, |obs|));
    assert obs[..|obs|] == obs && exp[..|exp|] == exp;
  }

  /** The cost of one aligned column of kind `m` after a column of kind
      `prev`: MATCH or SUB for a paired column, GAP_EXTEND for a gap, plus
      GAP_OPEN when the gap starts a new run. */
  function StepCost(m: Move, prev: Move, same: bool, c: Costs): int {
    match m
    case Start => 0
    case Diag => if same then c.matchScore else c.sub
    case _ => c.gapExtend + (if prev != m then c.gapOpen else 0)
  }

  /** Every cell but the origin scores its predecessor's score plus the cost
      of the move its back-pointer records. */
  lemma CellStep(obs: string, exp: string, c: Costs, i: nat, j: nat)
    requires i <= |exp| && j <= |obs| && (i != 0 || j != 0)
    ensures var move := Cell(obs, exp, c, i, j).1;
            var pred := Back(i, j, move);
            var before := Cell(obs, exp, c, pred.0, pred.1);
            Cell(obs, exp, c, i, j).0 ==
              before.0 + StepCost(move, before.1, move == Diag && obs[j - 1] == exp[i - 1], c)
  {
    if i == 0 {
      RowStep(obs, exp, c, j);
    } else if j == 0 {
      ColumnStep(obs, exp, c, i);
    } else {
      InnerStep(obs, exp, c, i, j);
    }
  }

  /** `CellStep` on the first row. */
  lemma RowStep(obs: string, exp: string, c: Costs, j: nat)
    requires 1 <= j <= |obs|
    ensures Cell(obs, exp, c, 0, j).1 == Left
    ensures Cell(obs, exp, c, 0, j).0 ==
              Cell(obs, exp, c, 0, j - 1).0 + StepCost(Left, Cell(obs, exp, c, 0, j - 1).1, false, c)
  {
    if j > 1 {
      assert Cell(obs, exp, c, 0, j - 1).1 == Left;
    }
  }

  /** `CellStep` on the first column. */
  lemma ColumnStep(obs: string, exp: string, c: Costs, i: nat)
    requires 1 <= i <= |exp|
    ensures Cell(obs, exp, c, i, 0).1 == Up
    ensures Cell(obs, exp, c, i, 0).0 ==
              Cell(obs, exp, c, i - 1, 0).0 + StepCost(Up, Cell(obs, exp, c, i - 1, 0).1, false, c)
  {
    if i > 1 {
      assert Cell(obs, exp, c, i - 1, 0).1 == Up;
    }
  }

  /** `CellStep` on an inner cell, one implication per move. */
  lemma InnerStep(obs: string, exp: string, c: Costs, i: nat, j: nat)
    requires 1 <= i <= |exp| && 1 <= j <= |obs|
    ensures Cell(obs, exp, c, i, j).1 == Up ==>
              Cell(obs, exp, c, i, j).0 == Cell(obs, exp, c, i - 1, j).0 + StepCost(Up, Cell(obs, exp, c, i - 1, j).1, false, c)
    ensures Cell(obs, exp, c, i, j).1 == Left ==>
              Cell(obs, exp, c, i, j).0 == Cell(obs, exp, c, i, j - 1).0 + StepCost(Left, Cell(obs, exp, c, i, j - 1).1, false, c)
    ensures Cell(obs, exp, c, i, j).1 == Diag ==>
              Cell(obs, exp, c, i, j).0 ==
                Cell(obs, exp, c, i - 1, j - 1).0 + StepCost(Diag, Cell(obs, exp, c, i - 1, j - 1).1, obs[j - 1] == exp[i - 1], c)
  {
    var d := Cell(obs, exp, c, i - 1, j - 1);
    var u := Cell(obs, exp, c, i - 1, j);
    var l := Cell(obs, exp, c, i, j - 1);
    var same := obs[j - 1] == exp[i - 1];
    InnerCell(obs, exp, c, i, j);
    ChooseCost(d, u, l, same, c);
  }

  /** The entry `Choose` picks is the chosen neighbour's score plus the cost
      of the move to it. */
  lemma ChooseCost(d: (int, Move), u: (int, Move), l: (int, Move), same: bool, c: Costs)
    ensures var r := Choose(Candidates(d.0, same, u, l, c));
            r.1 != Start &&
            (r.1 == Up ==> r.0 == u.0 + StepCost(Up, u.1, false, c)) &&
            (r.1 == Left ==> r.0 == l.0 + StepCost(Left, l.1, false, c)) &&
            (r.1 == Diag ==> r.0 == d.0 + StepCost(Diag, d.1, same, c))
  {
  }

  /** `AffineScore` grows by the cost of the column appended. */
  lemma AffineScoreSnoc(b1: string, b2: string, x: char, y: char, gap: char, c: Costs)
    requires |b1| == |b2|
    ensures var prev := if b1 == [] then Start else Kind(b1[|b1| - 1], b2[|b2| - 1], gap);
            var kind := Kind(x, y, gap);
            AffineScore(b1 + [x], b2 + [y], gap, c) ==
              AffineScore(b1, b2, gap, c) + StepCost(kind, prev, kind == Diag && x == y, c)
  {
    var a1, a2 := b1 + [x], b2 + [y];
    assert a1[..|b1|] == b1 && a2[..|b2|] == b2;
  }

  /** The score of cell (i, j) is the affine score of the alignment its
      back-pointers trace, and the last column of that alignment is of the
      kind of the cell's back-pointer. */
  lemma {:induction false} CellScoreIsAffine(obs: string, exp: string, gap: char, c: Costs, i: nat, j: nat)
    requires i <= |exp| && j <= |obs| && gap !in obs && gap !in exp
    ensures Scored(Render(obs, exp, gap, Path(obs, exp, c, i, j)), Cell(obs, exp, c, i, j), gap, c)
    decreases i + j
  {
    var here := Cell(obs, exp, c, i, j);
    if i == 0 && j == 0 {
      RenderLength(obs, exp, gap, Path(obs, exp, c, i, j));
    } else {
      var pred := Back(i, j, here.1);
      var before := Cell(obs, exp, c, pred.0, pred.1);
      var b := Render(obs, exp, gap, Path(obs, exp, c, pred.0, pred.1));
      var col := Column(obs, exp, gap, pred, (i, j));
      assert Scored(b, before, gap, c) by {
        CellScoreIsAffine(obs, exp, gap, c, pred.0, pred.1);
      }
      assert Render(obs, exp, gap, Path(obs, exp, c, i, j)) == (b.0 + [col.0], b.1 + [col.1]) by {
        PathStep(obs, exp, gap, c, i, j);
      }
      assert Kind(col.0, col.1, gap) == here.1 && (here.1 == Diag ==> (col.0 == col.1 <==> obs[j - 1] == exp[i - 1])) by {
        ColumnKind(obs, exp, gap, i, j, here.1);
      }
      assert here.0 == before.0 + StepCost(here.1, before.1, here.1 == Diag && obs[j - 1] == exp[i - 1], c) by {
        CellStep(obs, exp, c, i, j);
      }
      ScoreCompose(b, col.0, col.1, gap, c, before, here);
    }
  }

  /** A rendering `a` agrees with a table entry `cell`: equal lengths, the
      entry's score is the affine score of `a`, its last column is of the
      kind of the entry's back-pointer, and only the origin renders empty. */
  predicate Scored(a: (string, string), cell: (int, Move), gap: char, c: Costs) {
    |a.0| == |a.1| &&
    cell.0 == AffineScore(a.0, a.1, gap, c) &&
    (|a.0| > 0 ==> Kind(a.0[|a.0| - 1], a.1[|a.1| - 1], gap) == cell.1) &&
    (|a.0| == 0 <==> cell.1 == Start)
  }

  /** The inductive step of `CellScoreIsAffine` on plain values: appending
      the column of the move a cell records, whose cost the cell adds to its
      predecessor's score, keeps the two in agreement. */
  lemma ScoreCompose(b: (string, string), x: char, y: char, gap: char, c: Costs,
                     before: (int, Move), here: (int, Move))
    requires Scored(b, before, gap, c)
    requires here.1 != Start && Kind(x, y, gap) == here.1
    requires here.0 == before.0 + StepCost(here.1, before.1, here.1 == Diag && x == y, c)
    ensures Scored((b.0 + [x], b.1 + [y]), here, gap, c)
  {
    AffineScoreSnoc(b.0, b.1, x, y, gap, c);
  }

  /** The path to (i, j) is the path to its predecessor plus (i, j), so its
      rendering gains the column of that last step. */
  lemma PathStep(obs: string, exp: string, gap: char, c: Costs, i: nat, j: nat)
    requires i <= |exp| && j <= |obs| && (i != 0 || j != 0)
    ensures var pred := Back(i, j, Cell(obs, exp, c, i, j).1);
            var col := Column(obs, exp, gap, pred, (i, j));
            var b := Render(obs, exp, gap, Path(obs, exp, c, pred.0, pred.1));
            Render(obs, exp, gap, Path(obs, exp, c, i, j)) == (b.0 + [col.0], b.1 + [col.1])
  {
    var pred := Back(i, j, Cell(obs, exp, c, i, j).1);
    var p := Path(obs, exp, c, i, j);
    var q := Path(obs, exp, c, pred.0, pred.1);
    assert p == q + [(i, j)];
    assert p[..|p| - 1] == q;
    RenderLast(obs, exp, gap, p);
  }

  /** The column of a move is of that move's kind, and a diagonal column
      pairs equal characters exactly when the two inputs agree there. */
  lemma ColumnKind(obs: string, exp: string, gap: char, i: nat, j: nat, move: Move)
    requires i <= |exp| && j <= |obs| && gap !in obs && gap !in exp
    requires move != Start
    requires move == Up ==> i > 0
    requires move == Left ==> j > 0
    requires move == Diag ==> i > 0 && j > 0
    ensures var col := Column(obs, exp, gap, Back(i, j, move), (i, j));
            Kind(col.0, col.1, gap) == move &&
            (move == Diag ==> (col.0 == col.1 <==> obs[j - 1] == exp[i - 1]))
  {
  }

  /** What `edit_dist` returns, seen from outside: two aligned strings of
      equal length that never pair two gaps, from which deleting the gaps
      gives back `observed` and `expected`, and whose affine score is the
      returned score. */
  lemma AlignmentFacts(obs: string, exp: string, gap: char, c: Costs)
    requires gap !in obs && gap !in exp
    ensures var (a1, a2) := Align(obs, exp, gap, c);
            |a1| == |a2| &&
            DeleteChar(a1, gap) == obs && DeleteChar(a2, gap) == exp &&
            (forall k :: 0 <= k < |a1| ==> a1[k] != gap || a2[k] != gap) &&
            Cell(obs, exp, c, |exp|, |obs|).0 == AffineScore(a1, a2, gap, c)
  {
    AlignDeletes(obs, exp, gap, c);
    RenderLength(obs, exp, gap, Path(obs, exp, c, |exp|, |obs|));
    NoDoubleGap(obs, exp, gap, Path(obs, exp, c, |exp|, |obs|));
    CellScoreIsAffine(obs, exp, gap, c, |exp|, |obs|);
  }

  function Min(a: int, b: int): int { if a < b then a else b }
  function Dist(a: int, b: int): int { if a < b then b - a else a - b }

  /** With the default costs and identical inputs, every diagonal cell is
      reached by matching all the way, and any cell off the diagonal scores
      at least 3 + |i - j| below the shorter side's length. */
  lemma {:induction false} IdenticalCells(s: string, i: nat, j: nat)
    requires i <= |s| && j <= |s|
    ensures IdenticalFact(s, i, j)
    decreases i + j
  {
    if i == 0 || j == 0 {
      IdenticalBorder(s, i, j);
    } else {
      IdenticalCells(s, i - 1, j - 1);
      IdenticalCells(s, i - 1, j);
      IdenticalCells(s, i, j - 1);
      IdenticalStep(s, i, j);
    }
  }

  /** `IdenticalCells` for an inner cell, from its three neighbours. */
  lemma IdenticalStep(s: string, i: nat, j: nat)
    requires 1 <= i <= |s| && 1 <= j <= |s|
    requires IdenticalFact(s, i - 1, j - 1) && IdenticalFact(s, i - 1, j) && IdenticalFact(s, i, j - 1)
    ensures IdenticalFact(s, i, j)
  {
    var d := Cell(s, s, DefaultCosts, i - 1, j - 1);
    var u := Cell(s, s, DefaultCosts, i - 1, j);
    var l := Cell(s, s, DefaultCosts, i, j - 1);
    IdenticalInner(s, i, j, d, u, l);
  }

  /** The conclusion of `IdenticalCells` for one cell. */
  ghost predicate IdenticalFact(s: string, i: nat, j: nat)
    requires i <= |s| && j <= |s|
  {
    (i == j ==> Cell(s, s, DefaultCosts, i, j).0 == i) &&
    (i == j && i > 0 ==> Cell(s, s, DefaultCosts, i, j).1 == Diag) &&
    (i != j ==> Cell(s, s, DefaultCosts, i, j).0 <= Min(i, j) - Dist(i, j) - 3)
  }

  /** The border cells of `IdenticalCells`. */
  lemma IdenticalBorder(s: string, i: nat, j: nat)
    requires i <= |s| && j <= |s|
    requires i == 0 || j == 0
    ensures IdenticalFact(s, i, j)
  {
    BorderCells(s, s, DefaultCosts, i, j);
  }

  /** The inductive step of `IdenticalCells` for an inner cell, given its
      three neighbours' entries `d`, `u` and `l`. */
  lemma IdenticalInner(s: string, i: nat, j: nat, d: (int, Move), u: (int, Move), l: (int, Move))
    requires 1 <= i <= |s| && 1 <= j <= |s|
    requires d == Cell(s, s, DefaultCosts, i - 1, j - 1)
    requires u == Cell(s, s, DefaultCosts, i - 1, j)
    requires l == Cell(s, s, DefaultCosts, i, j - 1)
    requires if i == j then d.0 == i - 1 else d.0 <= Min(i - 1, j - 1) - Dist(i, j) - 3
    requires if i - 1 == j then u.0 == j && u.1 != Up else u.0 <= Min(i - 1, j) - Dist(i - 1, j) - 3
    requires if i == j - 1 then l.0 == i && l.1 != Left else l.0 <= Min(i, j - 1) - Dist(i, j - 1) - 3
    ensures i == j ==> Cell(s, s, DefaultCosts, i, j) == (i, Diag)
    ensures i != j ==> Cell(s, s, DefaultCosts, i, j).0 <= Min(i, j) - Dist(i, j) - 3
  {
    assert Cell(s, s, DefaultCosts, i, j) == Choose(Candidates(d.0, s[j - 1] == s[i - 1], u, l, DefaultCosts));
    BoundChoice(i, j, d, u, l, s[j - 1] == s[i - 1]);
  }

  /** The arithmetic of `IdenticalInner`, away from the recursive table. */
  lemma BoundChoice(i: nat, j: nat, d: (int, Move), u: (int, Move), l: (int, Move), same: bool)
    requires 1 <= i && 1 <= j
    requires i == j ==> same
    requires if i == j then d.0 == i - 1 else d.0 <= Min(i - 1, j - 1) - Dist(i, j) - 3
    requires if i - 1 == j then u.0 == j && u.1 != Up else u.0 <= Min(i - 1, j) - Dist(i - 1, j) - 3
    requires if i == j - 1 then l.0 == i && l.1 != Left else l.0 <= Min(i, j - 1) - Dist(i, j - 1) - 3
    ensures var r := Choose(Candidates(d.0, same, u, l, DefaultCosts));
            (i == j ==> r == (i, Diag)) && (i != j ==> r.0 <= Min(i, j) - Dist(i, j) - 3)
  {
  }

  /** Identical inputs align column by column with no gap. */
  lemma {:induction false} IdenticalPrefix(s: string, gap: char, n: nat)
    requires n <= |s|
    ensures Render(s, s, gap, Path(s, s, DefaultCosts, n, n)) == (s[..n], s[..n])
  {
    if n > 0 {
      var b := Render(s, s, gap, Path(s, s, DefaultCosts, n - 1, n - 1));
      assert b == (s[..n - 1], s[..n - 1]) by {
        IdenticalPrefix(s, gap, n - 1);
      }
      assert Render(s, s, gap, Path(s, s, DefaultCosts, n, n)) == (b.0 + [s[n - 1]], b.1 + [s[n - 1]]) by {
        IdenticalDiagonal(s, n);
        DiagonalStep(s, gap, n);
      }
      PrefixSnoc(s, n);
    }
  }

  lemma PrefixSnoc<T>(s: seq<T>, n: nat)
    requires 1 <= n <= |s|
    ensures s[..n] == s[..n - 1] + [s[n - 1]]
  {
  }

  /** The diagonal case of `IdenticalCells`. */
  lemma IdenticalDiagonal(s: string, n: nat)
    requires n <= |s|
    ensures Cell(s, s, DefaultCosts, n, n).0 == n
    ensures n > 0 ==> Cell(s, s, DefaultCosts, n, n).1 == Diag
  {
    IdenticalCells(s, n, n);
  }

  /** A diagonal back-pointer at (n, n) extends the path and its rendering
      from (n-1, n-1) by one paired column. */
  lemma DiagonalStep(s: string, gap: char, n: nat)
    requires 1 <= n <= |s|
    requires Cell(s, s, DefaultCosts, n, n).1 == Diag
    ensures var b := Render(s, s, gap, Path(s, s, DefaultCosts, n - 1, n - 1));
            Render(s, s, gap, Path(s, s, DefaultCosts, n, n)) == (b.0 + [s[n - 1]], b.1 + [s[n - 1]])
  {
    var q := Path(s, s, DefaultCosts, n - 1, n - 1);
    var p := Path(s, s, DefaultCosts, n, n);
    assert p == q + [(n, n)];
    assert p[..|p| - 1] == q;
    RenderLast(s, s, gap, p);
  }

  lemma IdenticalInputs(s: string, gap: char)
    ensures Align(s, s, gap, DefaultCosts) == (s, s)
    ensures Cell(s, s, DefaultCosts, |s|, |s|).0 == |s| * DefaultCosts.matchScore
  {
    IdenticalPrefix(s, gap, |s|);
    IdenticalDiagonal(s, |s|);
    assert s[..|s|] == s;
  }
}
