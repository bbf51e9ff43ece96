/** The `<<input>>` markers of a dialog file, as the two `_extract_input`
    helpers read them with `re.findall` and `re.sub` on the pattern
    `<<(.*?)>>`. `DialogChecker` compiles the pattern with `re.DOTALL`, so an
    input may span lines; `IOChecker` does not, so an input stops at no
    newline and a marker whose first `>>` lies beyond a newline is plain
    text. */
module InputMarkers {

  /** What the scanner sees at one position: a character copied through, or
      a whole marker with the text between its delimiters. */
  datatype Piece = Lit(c: char) | Marked(text: string)

  /** The lazy `.*?>>` part of the pattern, started at `from`: the first
      position of `>>` at or after `from`, or -1 when there is none that
      the `.` may reach (without DOTALL, `.` does not cross a newline). */
  function FindClose(s: string, from: nat, dotAll: bool): (r: int)
    ensures r == -1 || (from <= r && CloseAt(s, r))
    decreases |s| - from
  {
    if from + 1 >= |s| then -1
    else if CloseAt(s, from) then from
    else if !dotAll && s[from] == '\n' then -1
    else FindClose(s, from + 1, dotAll)
  }

  /** The `>>` found is the first one, and without DOTALL no newline comes
      before it. */
  lemma {:induction false} FindCloseFirst(s: string, from: nat, dotAll: bool)
    requires FindClose(s, from, dotAll) >= 0
    ensures forall k :: from <= k < FindClose(s, from, dotAll) ==> !CloseAt(s, k)
    ensures !dotAll ==> forall k :: from <= k < FindClose(s, from, dotAll) ==> s[k] != '\n'
    decreases |s| - from
  {
    if !CloseAt(s, from) {
      FindCloseFirst(s, from + 1, dotAll);
    }
  }

  /** When no `>>` is found, every later `>>` lies beyond a newline that
      the `.` of the pattern cannot cross. */
  lemma {:induction false} FindCloseNone(s: string, from: nat, dotAll: bool, q: nat)
    requires FindClose(s, from, dotAll) == -1 && from <= q && CloseAt(s, q)
    ensures !dotAll && NewlineIn(s, from, q)
    decreases |s| - from
  {
    if !(!dotAll && s[from] == '\n') {
      FindCloseNone(s, from + 1, dotAll, q);
    }
  }

  /** Whether `>>` starts at position `k`. */
  predicate CloseAt(s: string, k: int) {
    0 <= k && k + 1 < |s| && s[k] == '>' && s[k + 1] == '>'
  }

  /** Whether `<<` starts at position `k`. */
  predicate OpenAt(s: string, k: int) {
    0 <= k && k + 1 < |s| && s[k] == '<' && s[k + 1] == '<'
  }

  /** Whether `s[from..to]` holds a newline. */
  predicate NewlineIn(s: string, from: nat, to: nat)
    requires to <= |s|
  {
    exists k :: from <= k < to && s[k] == '\n'
  }

  /** Whether the pattern matches at position `p`. */
  predicate OpensAt(s: string, p: nat, dotAll: bool) {
    OpenAt(s, p) && FindClose(s, p + 2, dotAll) >= 0
  }

  /** The left-to-right scan `findall` and `sub` share: a match consumes
      the marker, anything else one character. */
  function PiecesFrom(s: string, p: nat, dotAll: bool): seq<Piece>
    requires p <= |s|
    decreases |s| - p
  {
    if p == |s| then []
    else if OpensAt(s, p, dotAll) then
      var q := FindClose(s, p + 2, dotAll);
      [Marked(s[p + 2..q])] + PiecesFrom(s, q + 2, dotAll)
    else [Lit(s[p])] + PiecesFrom(s, p + 1, dotAll)
  }

  function Pieces(s: string, dotAll: bool): seq<Piece> {
    PiecesFrom(s, 0, dotAll)
  }

  /** The list `re.findall` returns: the marked texts in order. */
  function Inputs(ps: seq<Piece>): (r: seq<string>)
    ensures |r| <= |ps|
  {
    if ps == [] then []
    else match ps[0]
      case Lit(_) => Inputs(ps[1..])
      case Marked(t) => [t] + Inputs(ps[1..])
  }

  /** The text `re.sub(..., r'\1', ...)` returns: each marker replaced by
      its inner text. */
  function Shown(ps: seq<Piece>): string {
    if ps == [] then []
    else match ps[0]
      case Lit(c) => [c] + Shown(ps[1..])
      case Marked(t) => t + Shown(ps[1..])
  }

  /** The text the pieces were read from. */
  function Raw(ps: seq<Piece>): string {
    if ps == [] then []
    else match ps[0]
      case Lit(c) => [c] + Raw(ps[1..])
      case Marked(t) => "<<" + t + ">>" + Raw(ps[1..])
  }

  /** `_extract_input`: the inputs and the dialog with the delimiters
      removed. */
  function ExtractInput(s: string, dotAll: bool): (seq<string>, string) {
    var ps := Pieces(s, dotAll);
    (Inputs(ps), Shown(ps))
  }

  /** A marked text holds no `>>` and does not end in `>`: the match closes
      at the first `>>`. Without DOTALL it holds no newline either. */
  predicate Lazy(t: string, dotAll: bool) {
    (forall k :: 0 <= k < |t| ==> !CloseAt(t, k)) &&
    (t != [] ==> t[|t| - 1] != '>') &&
    (!dotAll ==> '\n' !in t)
  }

  // ---------------------------------------------------------------------
  // Properties of the scan.

  /** The scan at a position where the pattern matches. */
  lemma PiecesAtMarker(s: string, p: nat, dotAll: bool)
    requires p < |s| && OpensAt(s, p, dotAll)
    ensures var q := FindClose(s, p + 2, dotAll);
            p + 2 <= q && q + 2 <= |s| &&
            PiecesFrom(s, p, dotAll) == [Marked(s[p + 2..q])] + PiecesFrom(s, q + 2, dotAll)
  {
  }

  /** The scan at a position where it does not. */
  lemma PiecesAtLiteral(s: string, p: nat, dotAll: bool)
    requires p < |s| && !OpensAt(s, p, dotAll)
    ensures PiecesFrom(s, p, dotAll) == [Lit(s[p])] + PiecesFrom(s, p + 1, dotAll)
  {
  }

  /** A prefix of pieces writes back and shows independently of the rest. */
  lemma Cons(x: Piece, rest: seq<Piece>)
    ensures Raw([x] + rest) == Raw([x]) + Raw(rest)
    ensures Shown([x] + rest) == Shown([x]) + Shown(rest)
    ensures Inputs([x] + rest) == Inputs([x]) + Inputs(rest)
  {
    ConsRaw(x, rest);
    ConsShown(x, rest);
    ConsInputs(x, rest);
  }

  lemma ConsRaw(x: Piece, rest: seq<Piece>)
    ensures Raw([x] + rest) == Raw([x]) + Raw(rest)
  {
    assert ([x] + rest)[0] == x && ([x] + rest)[1..] == rest;
    assert [x][1..] == [];
  }

  lemma ConsShown(x: Piece, rest: seq<Piece>)
    ensures Shown([x] + rest) == Shown([x]) + Shown(rest)
  {
    assert ([x] + rest)[0] == x && ([x] + rest)[1..] == rest;
    assert [x][1..] == [];
  }

  lemma ConsInputs(x: Piece, rest: seq<Piece>)
    ensures Inputs([x] + rest) == Inputs([x]) + Inputs(rest)
  {
    assert ([x] + rest)[0] == x && ([x] + rest)[1..] == rest;
    assert [x][1..] == [];
  }

  lemma SplitMarker(s: string, p: nat, q: nat)
    requires p + 2 <= q && q + 2 <= |s|
    requires s[p] == '<' && s[p + 1] == '<' && s[q] == '>' && s[q + 1] == '>'
    ensures s[p..] == "<<" + s[p + 2..q] + ">>" + s[q + 2..]
  {
  }

  /** Scanning loses nothing: writing the pieces back gives the text. */
  lemma {:induction false} RawPiecesFrom(s: string, p: nat, dotAll: bool)
    requires p <= |s|
    ensures Raw(PiecesFrom(s, p, dotAll)) == s[p..]
    decreases |s| - p
  {
    if p < |s| {
      if OpensAt(s, p, dotAll) {
        var q := FindClose(s, p + 2, dotAll);
        RawPiecesFrom(s, q + 2, dotAll);
        RawAtMarker(s, p, dotAll, q, PiecesFrom(s, q + 2, dotAll));
      } else {
        RawPiecesFrom(s, p + 1, dotAll);
        RawAtLiteral(s, p, dotAll, PiecesFrom(s, p + 1, dotAll));
      }
    }
  }

  lemma RawAtMarker(s: string, p: nat, dotAll: bool, q: int, rest: seq<Piece>)
    requires p < |s| && OpensAt(s, p, dotAll) && q == FindClose(s, p + 2, dotAll)
    requires q + 2 <= |s| && rest == PiecesFrom(s, q + 2, dotAll) && Raw(rest) == s[q + 2..]
    ensures Raw(PiecesFrom(s, p, dotAll)) == s[p..]
  {
    PiecesAtMarker(s, p, dotAll);
    RawMarker(s, p, q, rest);
  }

  lemma RawAtLiteral(s: string, p: nat, dotAll: bool, rest: seq<Piece>)
    requires p < |s| && !OpensAt(s, p, dotAll)
    requires rest == PiecesFrom(s, p + 1, dotAll) && Raw(rest) == s[p + 1..]
    ensures Raw(PiecesFrom(s, p, dotAll)) == s[p..]
  {
    PiecesAtLiteral(s, p, dotAll);
    RawLiteral(s, p, rest);
  }

  /** The step of `RawPiecesFrom` over a marker. */
  lemma RawMarker(s: string, p: nat, q: nat, rest: seq<Piece>)
    requires p + 2 <= q && q + 2 <= |s|
    requires s[p] == '<' && s[p + 1] == '<' && s[q] == '>' && s[q + 1] == '>'
    requires Raw(rest) == s[q + 2..]
    ensures Raw([Marked(s[p + 2..q])] + rest) == s[p..]
  {
    Cons(Marked(s[p + 2..q]), rest);
    SplitMarker(s, p, q);
  }

  /** The step of `RawPiecesFrom` over a literal character. */
  lemma RawLiteral(s: string, p: nat, rest: seq<Piece>)
    requires p < |s| && Raw(rest) == s[p + 1..]
    ensures Raw([Lit(s[p])] + rest) == s[p..]
  {
    Cons(Lit(s[p]), rest);
    assert s[p..] == [s[p]] + s[p + 1..];
  }

  lemma RawPieces(s: string, dotAll: bool)
    ensures Raw(Pieces(s, dotAll)) == s
  {
    RawPiecesFrom(s, 0, dotAll);
  }

  /** The text a match captures closes at the first `>>` the pattern may
      reach. */
  lemma LazyMarker(s: string, p: nat, dotAll: bool)
    requires p < |s| && OpensAt(s, p, dotAll)
    ensures Lazy(s[p + 2..FindClose(s, p + 2, dotAll)], dotAll)
  {
    var q := FindClose(s, p + 2, dotAll);
    FindCloseFirst(s, p + 2, dotAll);
    var t := s[p + 2..q];
    assert forall k :: 0 <= k < |t| ==> t[k] == s[p + 2 + k];
    forall k | 0 <= k < |t|
      ensures !CloseAt(t, k)
    {
      assert CloseAt(t, k) ==> CloseAt(s, p + 2 + k);
    }
    if t != [] && t[|t| - 1] == '>' {
      assert CloseAt(s, q - 1);
    }
  }

  /** Every marked text is closed at the first `>>` the pattern may reach. */
  lemma {:induction false} LazyPiecesFrom(s: string, p: nat, dotAll: bool)
    requires p <= |s|
    ensures AllLazy(Inputs(PiecesFrom(s, p, dotAll)), dotAll)
    decreases |s| - p
  {
    if p < |s| {
      if OpensAt(s, p, dotAll) {
        var q := FindClose(s, p + 2, dotAll);
        assert p + 2 <= q && q + 2 <= |s| &&
               PiecesFrom(s, p, dotAll) == [Marked(s[p + 2..q])] + PiecesFrom(s, q + 2, dotAll) by {
          PiecesAtMarker(s, p, dotAll);
        }
        assert AllLazy(Inputs(PiecesFrom(s, q + 2, dotAll)), dotAll) by {
          LazyPiecesFrom(s, q + 2, dotAll);
        }
        assert Lazy(s[p + 2..q], dotAll) by {
          LazyMarker(s, p, dotAll);
        }
        LazyCons(Marked(s[p + 2..q]), PiecesFrom(s, q + 2, dotAll), dotAll);
      } else {
        assert PiecesFrom(s, p, dotAll) == [Lit(s[p])] + PiecesFrom(s, p + 1, dotAll) by {
          PiecesAtLiteral(s, p, dotAll);
        }
        assert AllLazy(Inputs(PiecesFrom(s, p + 1, dotAll)), dotAll) by {
          LazyPiecesFrom(s, p + 1, dotAll);
        }
        LazyCons(Lit(s[p]), PiecesFrom(s, p + 1, dotAll), dotAll);
      }
    }
  }

  predicate AllLazy(ts: seq<string>, dotAll: bool) {
    forall k :: 0 <= k < |ts| ==> Lazy(ts[k], dotAll)
  }

  lemma LazyCons(x: Piece, rest: seq<Piece>, dotAll: bool)
    requires x.Marked? ==> Lazy(x.text, dotAll)
    requires AllLazy(Inputs(rest), dotAll)
    ensures AllLazy(Inputs([x] + rest), dotAll)
  {
    Cons(x, rest);
    assert [x][1..] == [];
  }

  /** The returned dialog is the original with exactly the four delimiter
      characters of each input removed. */
  lemma {:induction false} ShownLength(ps: seq<Piece>)
    ensures |Shown(ps)| == |Raw(ps)| - 4 * |Inputs(ps)|
  {
    if ps != [] {
      ShownLength(ps[1..]);
    }
  }

  /** A dialog without `<<` has no inputs and comes back unchanged. */
  lemma {:induction false} NoMarkersFrom(s: string, p: nat, dotAll: bool)
    requires p <= |s|
    requires forall k :: p <= k < |s| ==> !OpenAt(s, k)
    ensures Inputs(PiecesFrom(s, p, dotAll)) == [] && Shown(PiecesFrom(s, p, dotAll)) == s[p..]
    decreases |s| - p
  {
    if p < |s| {
      var ps := PiecesFrom(s, p, dotAll);
      NoMarkersFrom(s, p + 1, dotAll);
      assert ps[1..] == PiecesFrom(s, p + 1, dotAll);
      assert s[p..] == [s[p]] + s[p + 1..];
    }
  }

  /** What `_extract_input` returns, seen from outside: every input closes
      at the first reachable `>>` (and holds no newline without DOTALL),
      and the returned text is the original minus four characters per
      input. */
  lemma ExtractInputFacts(s: string, dotAll: bool)
    ensures var (inputs, shown) := ExtractInput(s, dotAll);
            AllLazy(inputs, dotAll) &&
            |shown| == |s| - 4 * |inputs|
  {
    RawPieces(s, dotAll);
    LazyPiecesFrom(s, 0, dotAll);
    ShownLength(Pieces(s, dotAll));
  }

  lemma NoMarkers(s: string, dotAll: bool)
    requires forall k :: 0 <= k < |s| ==> !OpenAt(s, k)
    ensures ExtractInput(s, dotAll) == ([], s)
  {
    NoMarkersFrom(s, 0, dotAll);
  }
}
